# fssafe in-memory loader/saver, modelled in Dafny

fssafe persists one artifact through two capabilities. `Loader()` returns a
reader over the current bytes, or a not-exist error when nothing has been
committed. `Saver()` returns a writer whose content becomes the artifact when
the writer is closed. This project models the in-memory test double of that
interface, `NewTestingLoaderSaver` in `testloadsave.go`. It has these parts:

- **Slot.** The loader and saver closures share a committed buffer and a
  history list. The buffer is unset until the first writer is closed. The
  history records every committed buffer in close order. The class `Slot`
  holds both. `SlotSpec.SlotState` is their abstract value, and
  `SlotSpec.Load` and `SlotSpec.Commit` say what the loader observes and what
  a commit does to that value.
- **Readers.** `TestingReader` reads from a snapshot of the committed bytes,
  starting at a read position, and has a closed flag. `Read` follows
  `bytes.Reader.Read`. `ReadAll` follows `io.ReadAll`: it reads 512-byte
  chunks until end-of-file.
- **Writers.** `TestingWriter` has a private buffer and a closed flag. It
  also keeps a reference to the slot, which stands for the Go pointers
  `final` and `bufferList`. `Close` is the commit step.
- **Backend.** `TestingLoaderSaver` passes `Loader` and `Saver` on to the
  closures (the role of `BasicLoaderSaver`). It records every reader and
  writer it hands out, in creation order, for the accessors the test suite
  uses: `Buffers`, `CurrentReader`, `CurrentWriter`, `ReadersClosed` and
  `WritersClosed`.

Files:

- `slot_spec.dfy` (module `SlotSpec`): the abstract state and the lemmas
  about sequences of commits.
- `testloadsave.dfy` (module `TestLoadSave`): the classes.
- `scenarios.dfy` (module `TestLoadSaveScenarios`): two clients. They drive
  the backend the way `testloadsave_test.go` does. Each assertion of that
  test is proved from the operations' contracts alone. The per-cycle checks
  on history length and current indices are inside `RunCycle`. The
  end-state checks are in the contract of `RunCycles`.

Three things differ from the Go code:

- `CurrentReader`, `CurrentWriter`, `ReadersClosed`, `WritersClosed` and
  `BasicLoaderSaver` are not defined in `testloadsave.go`. The model
  defines them the way `testloadsave_test.go` uses them:
  - readers and writers are kept in creation order;
  - the current index is the list length minus one, so -1 when the list is
    empty;
  - a `Loader` call that fails records no reader.
- Go's `io.Closer` documentation leaves the behaviour of `Close` after the
  first call undefined. The Go writer's `Close` does not check its flag, so
  a second close commits the buffer again and appends it to the history a
  second time. The model does the
  same: `TestingWriter.Close` has no precondition.
- Both `Close` methods always return a nil error. The model's `Close`
  methods therefore have no error result.

## Model

| member | source | states |
|---|---|---|
| `SlotSpec.Commit` | testloadsave.go:27-32 | After a commit, the loader returns exactly the committed content. The history grows by exactly one entry, that content, at its end. Earlier entries are unchanged. |
| `SlotSpec.CommitAllAppendsInOrder` | testloadsave.go:28-29 | Starting from any state, N commits extend the history by exactly the N payloads in commit order. The last payload becomes the committed buffer. Zero commits change nothing. |
| `SlotSpec.CommitAllThenOne` | testloadsave.go:28-29 | One more commit after a run of commits gives the same state as the run extended by that payload. This lets a loop keep the slot equal to "the commits so far". |
| `SlotSpec.NotFoundUntilFirstCommit` | testloadsave.go:47-52 | Starting from a blank backend, the loader fails with not-exist if and only if nothing has been committed. Otherwise it returns the last committed payload, and the history equals the payloads. |
| `TestLoadSave.TestingReader.constructor` | testloadsave.go:52 | A new reader is over the given snapshot, at position 0, and not closed. |
| `TestLoadSave.TestingReader.Read` | testloadsave.go:11 | At the end of the data, reports end-of-file and reads nothing. Otherwise returns min(n, remaining) bytes. The chunk followed by what is still unread equals what was unread before. |
| `TestLoadSave.TestingReader.Close` | testloadsave.go:16 | Sets the closed flag and changes nothing else: not the position, the snapshot, the slot or any other handle. |
| `TestLoadSave.ReadAll` | testloadsave_test.go:54-57 | Reading to the end returns exactly the bytes that were unread, and leaves nothing unread. |
| `TestLoadSave.Slot.constructor` | testloadsave.go:46 | Initially nothing is committed and the history is empty. |
| `TestLoadSave.Slot.Loader` | testloadsave.go:47-54 | With nothing committed, returns not-exist. Otherwise returns a fresh, open reader at position 0 over exactly the committed bytes. The slot is not changed. |
| `TestLoadSave.Slot.Saver` | testloadsave.go:57-61 | Always succeeds. Returns a fresh writer bound to this slot, with an empty buffer, not closed. The slot is not changed. |
| `TestLoadSave.TestingWriter.constructor` | testloadsave.go:58-59 | A new writer has an empty private buffer, is open, and is bound to the given slot. |
| `TestLoadSave.TestingWriter.Write` | testloadsave.go:20 | On an open writer, appends the bytes to its own buffer and reports all of them written. It changes nothing else, so the slot and the history stay as they were. |
| `TestLoadSave.TestingWriter.Close` | testloadsave.go:27-32 | Sets the closed flag. The new slot state is `Commit` of the old one with this writer's bytes: they become the committed buffer and are appended as the one new history entry. |
| `TestLoadSave.TestingLoaderSaver.constructor` | testloadsave.go:45-66 | A new backend has nothing committed, an empty history, and no readers or writers. |
| `TestLoadSave.TestingLoaderSaver.Loader` | testloadsave.go:63 | Passes the call to the loader closure. It returns not-exist and records nothing when nothing is committed. Otherwise it returns a fresh, open reader over the committed bytes and appends it to the reader list. The slot is unchanged either way. |
| `TestLoadSave.TestingLoaderSaver.Saver` | testloadsave_test.go:28-31 | Passes the call to the saver closure. It returns a fresh, empty, open writer bound to the backend's slot and appends it to the writer list. The committed buffer and the history are unchanged. |
| `TestLoadSave.TestingLoaderSaver.Buffers` | testloadsave.go:40-42 | Returns the history of committed buffers held by the shared slot. |
| `TestLoadSave.TestingLoaderSaver.CurrentReader` | testloadsave_test.go:52 | -1 exactly when no reader has been created. Otherwise it is the index of the last reader created. |
| `TestLoadSave.TestingLoaderSaver.CurrentWriter` | testloadsave_test.go:31 | -1 exactly when no writer has been created. Otherwise it is the index of the last writer created. |
| `TestLoadSave.TestingLoaderSaver.ReadersClosed` | testloadsave_test.go:64 | Has one flag per reader created, and flag i is reader i's closed state. |
| `TestLoadSave.TestingLoaderSaver.WritersClosed` | testloadsave_test.go:65 | Has one flag per writer created, and flag i is writer i's closed state. |
| `TestLoadSaveScenarios.RunCycle` | testloadsave_test.go:26-61 | One pass of the test's loop reads back exactly the payload it wrote. The slot becomes `Commit` of its old state with that payload. Exactly one reader and one writer are appended to the handle lists, both closed. Earlier handles stay in place. Inside the pass, the test's checks are proved: the writer index is the new writer's, and the history length is unchanged by `Saver` and `Write` and grows by one at `Close`. After the load, the reader index is the new reader's. |
| `TestLoadSaveScenarios.RunCycles` | testloadsave_test.go:11-76 | Loading before any save fails, and both current indices are -1. Each of N save/write/close/load/read cycles reads back exactly its own payload. The slot after i cycles is `CommitAll` of the first i payloads from a blank state, and `NotFoundUntilFirstCommit` turns that into the final history. At the end, `Buffers()` equals the payloads in close order, both current indices are N-1, and every reader and writer is flagged closed. |
| `TestLoadSaveScenarios.SnapshotIsolation` | testloadsave.go:52-59 | A reader opened after the first commit still yields the first content after a second writer has committed. That writer was opened before the first commit. A reader opened afterwards yields the second content. The history is both contents in close order. |

## Left out

- The filesystem backend: `NewFileSystemLoaderSaver`, `safeWriter`, and the
  `.new`/`.old` rename swap. Their implementation is not part of this model.
  They consist of OS calls (create, sync, rename, stat).
- `RandString` and the `math/rand` seeding. They only generate test data.
  The scenarios take arbitrary payloads instead.
- `t.Parallel`, the testify assertions, and the `io.ReadCloser` /
  `io.WriteCloser` interface plumbing.
- `BasicLoaderSaver` keeps the loader and the saver as function values. Here
  they are the methods `Slot.Loader` and `Slot.Saver`, and
  `TestingLoaderSaver` calls them directly.
- Writes to a writer after its `Close`. `TestingWriter.Write` requires the
  writer to be open. In Go, such a write would also change the committed
  buffer and history entries, which point to the same `bytes.Buffer`. With
  writes after close excluded, the history holds byte values instead of
  buffer pointers, and nothing is lost.
- `TestLoadSave.TestingWriter.Write`: does not model `bytes.Buffer` growth
  failing (`ErrTooLarge` panic), because buffers here are unbounded
  sequences.
- The internals of `bytes.Buffer` and `bytes.Reader`, such as rune reads,
  seeking and capacity growth. A buffer is modelled as "append bytes" and a
  reader as "read the remaining bytes from a position".
- `TestLoadSave.ReadAll`: offers fixed 512-byte chunks. `io.ReadAll` grows
  its buffer instead, which changes only how many reads are made, not what
  they return.
