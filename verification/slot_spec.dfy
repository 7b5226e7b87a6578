/** The abstract state shared by the loader and saver of the in-memory test
    backend: the committed buffer (unset until the first writer is closed)
    and the close-ordered history of every committed buffer. The classes in
    TestLoadSave are proved against the functions of this module. */
module SlotSpec {

  type byte = bv8

  datatype Option<T> = None | Some(value: T)

  /** `buf` is the committed buffer, `bufferList` the history of commits. */
  datatype SlotState = SlotState(buf: Option<seq<byte>>, bufferList: seq<seq<byte>>)

  /** What the loader observes: the not-exist error, or a snapshot of the
      committed bytes. */
  datatype LoadOutcome = ErrNotExist | Snapshot(bytes: seq<byte>)

  /** The state of a freshly constructed backend: nothing committed, no history. */
  const Blank: SlotState := SlotState(None, [])

  /** The loader: not-exist while nothing is committed, the committed bytes otherwise. */
  function Load(s: SlotState): (r: LoadOutcome)
  {
    match s.buf
    case None => ErrNotExist
    case Some(b) => Snapshot(b)
  }

  /** Closing a writer whose buffer holds `content`: it becomes the committed
      buffer and is appended to the history. */
  function Commit(s: SlotState, content: seq<byte>): (r: SlotState)
    ensures Load(r) == Snapshot(content)
    ensures |r.bufferList| == |s.bufferList| + 1
    ensures r.bufferList[..|s.bufferList|] == s.bufferList
    ensures r.bufferList[|s.bufferList|] == content
  {
    SlotState(Some(content), s.bufferList + [content])
  }

  /** Closing one writer per payload, in the order given. */
  function CommitAll(s: SlotState, payloads: seq<seq<byte>>): (r: SlotState)
    decreases |payloads|
  {
    if payloads == [] then s
    else CommitAll(Commit(s, payloads[0]), payloads[1..])
  }

  /** N commits extend the history by exactly the N payloads, in commit order,
      and the last one decides the committed buffer. */
  lemma {:induction false} CommitAllAppendsInOrder(s: SlotState, payloads: seq<seq<byte>>)
    ensures CommitAll(s, payloads).bufferList == s.bufferList + payloads
    ensures payloads == [] ==> CommitAll(s, payloads) == s
    ensures payloads != [] ==> CommitAll(s, payloads).buf == Some(payloads[|payloads| - 1])
    decreases |payloads|
  {
    if payloads != [] {
      var next := Commit(s, payloads[0]);
      CommitAllAppendsInOrder(next, payloads[1..]);
      assert s.bufferList + payloads == next.bufferList + payloads[1..];
      if |payloads| > 1 {
        assert payloads[1..][|payloads[1..]| - 1] == payloads[|payloads| - 1];
      }
    }
  }

  /** Closing one more writer after a run of commits is that run followed by
      one commit of its payload. */
  lemma {:induction false} CommitAllThenOne(s: SlotState, payloads: seq<seq<byte>>, last: seq<byte>)
    ensures CommitAll(s, payloads + [last]) == Commit(CommitAll(s, payloads), last)
    decreases |payloads|
  {
    if payloads == [] {
      assert [last][1..] == [];
    } else {
      assert (payloads + [last])[1..] == payloads[1..] + [last];
      CommitAllThenOne(Commit(s, payloads[0]), payloads[1..], last);
    }
  }

  /** Starting from a blank backend, the loader reports not-exist exactly
      until the first commit, and afterwards returns the last payload. */
  lemma {:induction false} NotFoundUntilFirstCommit(payloads: seq<seq<byte>>)
    ensures Load(CommitAll(Blank, payloads)) == ErrNotExist <==> payloads == []
    ensures payloads != [] ==> Load(CommitAll(Blank, payloads)) == Snapshot(payloads[|payloads| - 1])
    ensures CommitAll(Blank, payloads).bufferList == payloads
  {
    CommitAllAppendsInOrder(Blank, payloads);
  }
}
