/** Clients of the in-memory backend that drive it the way its test suite
    does, proving from the operations' contracts alone what the test asserts. */
module TestLoadSaveScenarios {
  import opened SlotSpec
  import opened TestLoadSave

  /** One pass of the test's loop on a backend that has made as many readers
      and writers as commits: a saver, a write of `p`, a close, a loader, a
      read to the end and a reader close. */
  method RunCycle(k: TestingLoaderSaver, p: seq<byte>) returns (got: seq<byte>)
    requires |k.readers| == |k.writers| == |k.slot.bufferList|
    modifies k, k.slot
    ensures got == p
    ensures k.slot.View() == Commit(old(k.slot.View()), p)
    ensures |k.readers| == |old(k.readers)| + 1 && k.readers[..|old(k.readers)|] == old(k.readers)
    ensures |k.writers| == |old(k.writers)| + 1 && k.writers[..|old(k.writers)|] == old(k.writers)
    ensures k.readers[|old(k.readers)|].closed && k.writers[|old(k.writers)|].closed
  {
    var n := |k.writers|;
    var w := k.Saver();
    assert k.CurrentWriter() == n && |k.Buffers()| == n;
    var _ := w.Write(p);
    assert |k.Buffers()| == n;
    w.Close();
    assert |k.Buffers()| == n + 1;
    var loaded := k.Loader();
    assert k.CurrentReader() == n;
    var r := loaded.reader;
    got := ReadAll(r);
    r.Close();
  }

  /** On a blank backend: one loader call before any save, then for each
      payload a saver, a write, a close, a loader, a read to the end and a
      reader close. */
  method RunCycles(payloads: seq<seq<byte>>)
    returns (k: TestingLoaderSaver, missingAtFirst: bool, readBack: seq<seq<byte>>)
    ensures missingAtFirst
    ensures readBack == payloads
    ensures k.Buffers() == payloads
    ensures k.CurrentWriter() == |payloads| - 1 && k.CurrentReader() == |payloads| - 1
    ensures |k.ReadersClosed()| == |payloads| && |k.WritersClosed()| == |payloads|
    ensures forall i :: 0 <= i < |payloads| ==> k.ReadersClosed()[i] && k.WritersClosed()[i]
  {
    k := new TestingLoaderSaver();
    var first := k.Loader();
    missingAtFirst := first.NotExist? && k.CurrentReader() == -1 && k.CurrentWriter() == -1;
    readBack := [];
    var i := 0;
    while i < |payloads|
      invariant 0 <= i <= |payloads|
      invariant fresh(k) && fresh(k.slot)
      invariant k.slot.View() == CommitAll(Blank, payloads[..i]) && readBack == payloads[..i]
      invariant |k.readers| == i && |k.writers| == i
      invariant forall j :: 0 <= j < i ==> k.readers[j].closed && k.writers[j].closed
    {
      ghost var done := payloads[..i];
      NotFoundUntilFirstCommit(done);
      var got := RunCycle(k, payloads[i]);
      readBack := readBack + [got];
      assert payloads[..i + 1] == done + [payloads[i]];
      CommitAllThenOne(Blank, done, payloads[i]);
      i := i + 1;
    }
    assert payloads[..i] == payloads;
    NotFoundUntilFirstCommit(payloads);
  }

  /** A reader opened on the first commit keeps yielding that content after a
      second writer, opened before and closed after it, has committed; a new
      reader sees the second commit. */
  method SnapshotIsolation(first: seq<byte>, second: seq<byte>)
    returns (stale: seq<byte>, current: seq<byte>, history: seq<seq<byte>>)
    ensures stale == first && current == second
    ensures history == [first, second]
  {
    var k := new TestingLoaderSaver();
    var w1 := k.Saver();
    var w2 := k.Saver();
    var _ := w1.Write(first);
    w1.Close();
    var early := k.Loader();
    var r1 := early.reader;
    var _ := w2.Write(second);
    w2.Close();
    stale := ReadAll(r1);
    var late := k.Loader();
    current := ReadAll(late.reader);
    history := k.Buffers();
  }
}
