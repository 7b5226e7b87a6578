/** The in-memory loader/saver of fssafe: readers over a snapshot of the
    committed bytes, private writers that commit on close, and the shared
    state their closures capture. */
module TestLoadSave {
  import opened SlotSpec

  /** A reader over a snapshot of the committed bytes, with the position of
      the next unread byte and whether it has been closed. */
  class TestingReader {
    const data: seq<byte>
    var pos: nat
    var closed: bool

    ghost predicate Valid()
      reads this
    {
      pos <= |data|
    }

    /** The bytes still to be read. */
    function Unread(): (rest: seq<byte>)
      reads this
      requires Valid()
    {
      data[pos..]
    }

    constructor (snapshot: seq<byte>)
      ensures Valid() && data == snapshot && pos == 0 && !closed
    {
      data := snapshot;
      pos := 0;
      closed := false;
    }

    /** Reads at most `n` bytes: end-of-file when nothing is left, otherwise
        as many of the remaining bytes as fit, advancing the position. */
    method Read(n: nat) returns (chunk: seq<byte>, eof: bool)
      requires Valid()
      modifies this`pos
      ensures Valid()
      ensures eof <==> old(pos) == |data|
      ensures eof ==> chunk == [] && pos == old(pos)
      ensures !eof ==> |chunk| == (if n < |old(Unread())| then n else |old(Unread())|)
      ensures old(Unread()) == chunk + Unread()
    {
      if pos >= |data| {
        return [], true;
      }
      var k := if n < |data| - pos then n else |data| - pos;
      chunk := data[pos..pos + k];
      pos := pos + k;
      eof := false;
    }

    /** Marks the reader closed; nothing else changes. */
    method Close()
      modifies this`closed
      ensures closed
    {
      closed := true;
    }
  }

  /** The variables `buf` and `bufferList` that the loader and saver closures
      of a backend share. */
  class Slot {
    var buf: Option<seq<byte>>
    var bufferList: seq<seq<byte>>

    function View(): (v: SlotState)
      reads this
    {
      SlotState(buf, bufferList)
    }

    constructor ()
      ensures View() == Blank
    {
      buf := None;
      bufferList := [];
    }

    /** The loader closure: not-exist while nothing is committed, otherwise a
        fresh open reader over the committed bytes. */
    method Loader() returns (res: Loaded)
      ensures Load(View()) == ErrNotExist ==> res == NotExist
      ensures Load(View()).Snapshot? ==>
        (res.Opened? && fresh(res.reader) && res.reader.Valid()
         && res.reader.data == Load(View()).bytes && res.reader.pos == 0 && !res.reader.closed)
    {
      if buf.None? {
        return NotExist;
      }
      var r := new TestingReader(buf.value);
      return Opened(r);
    }

    /** The saver closure: a fresh, empty, open writer bound to this slot. */
    method Saver() returns (w: TestingWriter)
      ensures fresh(w) && w.slot == this && w.content == [] && !w.closed
    {
      w := new TestingWriter(this);
    }
  }

  /** Result of a loader call: the not-exist error, or an open reader. */
  datatype Loaded = NotExist | Opened(reader: TestingReader)

  /** A private growing buffer which, on close, becomes the committed buffer
      of the slot it was created for. */
  class TestingWriter {
    var content: seq<byte>
    var closed: bool
    const slot: Slot

    constructor (slot: Slot)
      ensures this.slot == slot && content == [] && !closed
    {
      this.slot := slot;
      content := [];
      closed := false;
    }

    /** Appends `p` to the private buffer; nothing is committed yet. */
    method Write(p: seq<byte>) returns (n: nat)
      requires !closed
      modifies this`content
      ensures content == old(content) + p && n == |p|
    {
      content := content + p;
      n := |p|;
    }

    /** The commit step: this buffer becomes the committed one and is appended
        to the history; the writer is flagged closed. */
    method Close()
      modifies this`closed, slot
      ensures closed
      ensures slot.View() == Commit(old(slot.View()), content)
    {
      slot.buf := Some(content);
      slot.bufferList := slot.bufferList + [content];
      closed := true;
    }
  }

  /** Closed flags of the readers, in creation order. */
  function ReaderFlags(rs: seq<TestingReader>): (flags: seq<bool>)
    reads rs
    ensures |flags| == |rs|
    ensures forall i :: 0 <= i < |rs| ==> flags[i] == rs[i].closed
  {
    if rs == [] then [] else ReaderFlags(rs[..|rs| - 1]) + [rs[|rs| - 1].closed]
  }

  /** Closed flags of the writers, in creation order. */
  function WriterFlags(ws: seq<TestingWriter>): (flags: seq<bool>)
    reads ws
    ensures |flags| == |ws|
    ensures forall i :: 0 <= i < |ws| ==> flags[i] == ws[i].closed
  {
    if ws == [] then [] else WriterFlags(ws[..|ws| - 1]) + [ws[|ws| - 1].closed]
  }

  /** The in-memory backend: loader and saver over a shared slot, and every
      reader and writer it handed out, in creation order. */
  class TestingLoaderSaver {
    const slot: Slot
    var readers: seq<TestingReader>
    var writers: seq<TestingWriter>

    /** A blank backend: nothing committed, no history, no handles. */
    constructor ()
      ensures fresh(slot) && slot.View() == Blank && readers == [] && writers == []
    {
      slot := new Slot();
      readers := [];
      writers := [];
    }

    /** Delegates to the loader closure; an opened reader is recorded. */
    method Loader() returns (res: Loaded)
      modifies this`readers
      ensures slot.View() == old(slot.View())
      ensures Load(slot.View()) == ErrNotExist ==> (res == NotExist && readers == old(readers))
      ensures Load(slot.View()).Snapshot? ==>
        (res.Opened? && fresh(res.reader) && res.reader.Valid()
         && res.reader.data == Load(slot.View()).bytes && res.reader.pos == 0 && !res.reader.closed
         && readers == old(readers) + [res.reader])
    {
      res := slot.Loader();
      if res.Opened? {
        readers := readers + [res.reader];
      }
    }

    /** Delegates to the saver closure; the new writer is recorded. */
    method Saver() returns (w: TestingWriter)
      modifies this`writers
      ensures slot.View() == old(slot.View())
      ensures fresh(w) && w.slot == slot && w.content == [] && !w.closed
      ensures writers == old(writers) + [w]
    {
      w := slot.Saver();
      writers := writers + [w];
    }

    /** The close-ordered history of committed buffers. */
    function Buffers(): (bufs: seq<seq<byte>>)
      reads this, slot
      ensures bufs == slot.View().bufferList
    {
      slot.bufferList
    }

    /** Index of the most recently created reader, -1 when there is none. */
    function CurrentReader(): (i: int)
      reads this
      ensures readers == [] <==> i == -1
      ensures readers != [] ==> 0 <= i && i + 1 == |readers|
    {
      |readers| - 1
    }

    /** Index of the most recently created writer, -1 when there is none. */
    function CurrentWriter(): (i: int)
      reads this
      ensures writers == [] <==> i == -1
      ensures writers != [] ==> 0 <= i && i + 1 == |writers|
    {
      |writers| - 1
    }

    /** Whether each reader, in creation order, has been closed. */
    function ReadersClosed(): (flags: seq<bool>)
      reads this, readers
      ensures |flags| == |readers|
      ensures forall i :: 0 <= i < |readers| ==> flags[i] == readers[i].closed
    {
      ReaderFlags(readers)
    }

    /** Whether each writer, in creation order, has been closed. */
    function WritersClosed(): (flags: seq<bool>)
      reads this, writers
      ensures |flags| == |writers|
      ensures forall i :: 0 <= i < |writers| ==> flags[i] == writers[i].closed
    {
      WriterFlags(writers)
    }
  }

  /** Size of the buffer each read of ReadAll offers. */
  const ChunkSize: nat := 512

  /** Reads `r` to its end, chunk by chunk, and returns everything read. */
  method ReadAll(r: TestingReader) returns (all: seq<byte>)
    requires r.Valid()
    modifies r`pos
    ensures r.Valid() && r.Unread() == []
    ensures all == old(r.Unread())
  {
    all := [];
    var eof := false;
    while !eof
      invariant r.Valid()
      invariant all + r.Unread() == old(r.Unread())
      invariant eof ==> r.pos == |r.data|
      decreases |r.data| - r.pos, if eof then 0 else 1
    {
      var chunk;
      chunk, eof := r.Read(ChunkSize);
      all := all + chunk;
    }
  }
}
