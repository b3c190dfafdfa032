# In-memory file namespace of aiofm, modelled in Dafny

aiofm offers one asynchronous file-management interface (`ls`, `open`,
`exists`, `cp`, `mv`, `rm`, `mkdir`/`mkdirs`, `is_dir`) over several
backends. Its in-memory backend, `MemoryProtocol`, keeps the whole
namespace in one nested dict:
- a directory is a dict whose keys keep their insertion order;
- a file is a `bytes` value;
- a path is the tuple of `PurePath` segments, so an absolute path starts
  with the segment `"/"`, which is an ordinary key of the top dict.

Every operation is built on three primitives:
- lookup, which folds `getitem` over the segments;
- delete, which removes the last segment from its parent;
- set-with-create, which creates missing parents as empty dicts.

`open` is an async context manager. For an existing file it yields a
`BytesIO` (binary mode) or `StringIO` (text mode) seeded from the file; for
a missing path opened to write or append it yields an empty `StringIO` in
every mode. For an existing file it stores the buffer back on exit when
`'w'` is in the mode; for a missing path it stores the stream object
itself on exit, whatever the mode. `MemProtocol` in `src/aiofm/protocols.py` is
a line-for-line copy of the same class (lines 100-247 there match
memory.py lines 26-173 up to type hints), so every row below applies to it
as well.

The model is split into modules:
- `Errors`: the Python exceptions the code raises, plus `Option`/`Result`.
- `Nodes`: `Node = Dir(entries) | File(bytes) | Opaque`. A directory is an
  association list, which keeps dict order. An existing key is assigned
  in place and a new key is appended. `Opaque` stands for any other Python
  object stored in the tree, which in practice means a stream object.
- `Paths`: stand-ins for the foreign `PurePath` helpers the code uses:
  `Name` for `.name`, `Parent` for `.parent` (memory.py:71-75) and `Join`
  for `joinpath` (memory.py:134-136), on the POSIX anchor only.
- `Walk`: lookup, and the path predicates the contracts use.
- `Assignment`: set-with-create.
  - `SetItem` is the reference definition.
  - `SetTreeItem` follows the source loop step by step, creating parents
    as it goes.
  - The two are proved equal. So every exception is raised before the
    tree is touched.
- `Removal`: the delete primitive.
- `Namespace`: the public operations.
  - A mutating operation returns an `Outcome`: the tree as the caller
    finds it afterwards, plus the exception raised, if any.
- `Handles`: `open` as a handle record.
  - `Open` covers everything up to the first `yield`.
  - `Write` and `Read` act on the stream.
  - `Close` is the resumption of the generator on normal exit. It is
    applied to the tree as it stands at that moment.

Where this README says a requirement differs from the behaviour, the
model follows the code:
- In `'w'` mode an existing file's buffer starts with the old bytes, so
  the old content is not truncated.
- `mkdirs` over an existing file raises FileNotFoundError.
- `mkdirs` over an existing directory replaces it with an empty one.
- `mv` of a directory onto a directory or onto a missing path deletes it
  without copying it.

## Model

| member | source | states |
|---|---|---|
| Nodes.Assign | src/aiofm/protocols/memory.py:58-66 | storing under a key keeps the order of existing keys and appends a new one at the end; the key then maps to the value, every other key keeps its child, and unique names stay unique |
| Nodes.Delete | src/aiofm/protocols/memory.py:31 | deleting a present key shortens the dict by one entry and, with unique keys, leaves that key absent; every other key keeps its child; deleting an absent key changes nothing |
| Nodes.KeysDelete | src/aiofm/protocols/memory.py:31 | in a dict with unique keys, deleting k removes exactly the name k from the key order and keeps the other names in their order (against an independent erase-from-list definition) |
| Nodes.AssignExisting | src/aiofm/protocols/memory.py:63 | assigning a key the value it already holds leaves the dict unchanged, position included |
| Nodes.AssignTwice | src/aiofm/protocols/memory.py:63 | assigning a key twice equals assigning it the second value once, in the position the first assignment gave it |
| Paths.Join | src/aiofm/protocols/memory.py:134-136 | joining a non-empty name appends exactly that segment after the directory's segments; joining "" leaves the path as it is |
| Paths.JoinParentName | src/aiofm/protocols/memory.py:69-75 | for a path whose last segment is non-empty, joining its parent with its name gives the path back, and the parent is a prefix of it |
| Walk.Lookup | src/aiofm/protocols/memory.py:36-42 | lookup of the empty path returns the whole tree, and the only exceptions it raises are FileNotFoundError and TypeError |
| Walk.LookupTypeErrIff | src/aiofm/protocols/memory.py:36-42 | lookup raises TypeError exactly when some strict prefix of the path holds a non-directory |
| Walk.LookupNotFoundIff | src/aiofm/protocols/memory.py:36-42 | lookup raises FileNotFoundError exactly when the walk reaches a directory that lacks the next segment |
| Walk.LookupAppend | src/aiofm/protocols/memory.py:36-42 | looking up a + b equals looking up b inside the node at a, and raises the exception of a's lookup when that fails: segments are followed in order |
| Walk.LookupPrefixDir | src/aiofm/protocols/memory.py:36-42 | when a lookup succeeds, every strict prefix of the path holds a directory |
| Walk.LeavesApart | src/aiofm/protocols/memory.py:36-42 | two different paths that both hold non-directories are not prefixes of each other |
| Walk.LookupValid | src/aiofm/protocols/memory.py:36-42 | every node found in a tree with unique names has unique names itself |
| Assignment.SetItem | src/aiofm/protocols/memory.py:45-66 | on success the value sits at p and the root is a directory; the only exceptions are IndexError, TypeError and FileNotFoundError |
| Assignment.SetTreeItem | src/aiofm/protocols/memory.py:45-66 | the source's loop raises IndexError exactly for the empty path, TypeError exactly for a non-dict root, and otherwise at most FileNotFoundError; when it raises nothing, the value sits at p |
| Assignment.WalkParents | src/aiofm/protocols/memory.py:50-66 | each turn of the loop, from a directory prefix, either raises FileNotFoundError or ends with the value at p |
| Assignment.WalkParentsIsSetItem | src/aiofm/protocols/memory.py:50-66 | the source's parent-creating loop, from any step whose prefix is a directory, ends as the reference definition says, raising with the tree untouched |
| Assignment.SetTreeItemAllOrNothing | src/aiofm/protocols/memory.py:45-66 | set-with-create either raises before creating any directory or succeeds with the reference result |
| Assignment.SetItemFailsIff | src/aiofm/protocols/memory.py:45-66 | IndexError exactly for the empty path; TypeError exactly for a non-dict root; FileNotFoundError exactly when a strict prefix holds a non-directory or the final node is of another kind; success otherwise |
| Assignment.SetItemFrame | src/aiofm/protocols/memory.py:45-66 | a successful store changes nothing at paths that are neither ancestors nor descendants of p |
| Assignment.SetItemParents | src/aiofm/protocols/memory.py:50-58 | after a store every ancestor of p is a directory; an existing ancestor keeps its keys in order with the next segment appended if it was missing; a created one holds only that segment |
| Assignment.SetItemSame | src/aiofm/protocols/memory.py:60-63 | storing at p the node already there leaves the tree unchanged |
| Assignment.SetItemTwice | src/aiofm/protocols/memory.py:45-66 | storing the same value at the same path twice equals storing it once |
| Assignment.SetItemValid | src/aiofm/protocols/memory.py:45-66 | a store keeps names unique in every directory |
| Assignment.SetItemMissingOk | src/aiofm/protocols/memory.py:53-58 | when some prefix a of q is missing, storing at q cannot fail |
| Assignment.SetItemOntoDirFails | src/aiofm/protocols/memory.py:60-64 | a non-directory can never be stored over a directory |
| Assignment.SetItemKeepsLeaf | src/aiofm/protocols/memory.py:45-66 | storing a non-directory leaves every other non-directory where it was |
| Assignment.SetParentItem | src/aiofm/protocols/memory.py:69-75 | storing at the parent of p either raises with the tree untouched or leaves the value at the parent, exactly when set-with-create at the parent succeeds |
| Removal.RemoveItem | src/aiofm/protocols/memory.py:27-33 | delete raises only IndexError or TypeError, and on success returns a directory |
| Removal.RemoveMissing | src/aiofm/protocols/memory.py:27-33 | a missing key anywhere along p makes delete a no-op |
| Removal.RemoveFailsIff | src/aiofm/protocols/memory.py:27-33 | delete succeeds exactly when p is non-empty and its parent is a directory or missing |
| Removal.RemoveGone | src/aiofm/protocols/memory.py:27-33 | deleting an existing path of a valid tree leaves it missing and leaves the parent with exactly that key removed |
| Removal.RemoveValid | src/aiofm/protocols/memory.py:27-33 | a successful delete keeps every directory's keys unique |
| Removal.RemoveFrame | src/aiofm/protocols/memory.py:27-33 | delete changes nothing at paths that are neither ancestors nor descendants of p |
| Namespace.Ls | src/aiofm/protocols/memory.py:77-80 | `ls` raises exactly when lookup does, with the same exception; it lists names exactly when p holds a directory, and then they are the dict's keys in insertion order; a file lists its bytes |
| Namespace.LsExistsAgree | src/aiofm/protocols/memory.py:77-80 | a directory lists exactly the names k for which `exists(p/k)` is true, without repeats in a valid tree |
| Namespace.LsAfterStore | src/aiofm/protocols/memory.py:45-80 | after a store at p/k, `ls(p)` keeps the old names in their order and appends k at the end when it was new |
| Namespace.LsAfterRm | src/aiofm/protocols/memory.py:27-33 | in a valid tree, `rm(p/k)` under a directory p succeeds, and afterwards `ls(p)` is the old listing with k erased and the other names in order |
| Namespace.Exists | src/aiofm/protocols/memory.py:114-120 | `exists` is true exactly when lookup succeeds and false exactly on FileNotFoundError; TypeError from a path through a file escapes |
| Namespace.ExistsOnPath | src/aiofm/protocols/memory.py:114-120 | `exists` raises exactly when a strict prefix holds a non-directory, and is false exactly when the walk reaches a directory lacking the next segment |
| Namespace.IsDir | src/aiofm/protocols/memory.py:169-170 | `is_dir` answers exactly when lookup succeeds, is true exactly for a directory, and otherwise raises the lookup's exception |
| Namespace.Mkdirs | src/aiofm/protocols/memory.py:159-160 | on success an empty directory sits at p; IndexError exactly for the empty path; FileNotFoundError with the tree untouched exactly when a non-directory lies on p, p included |
| Namespace.Mkdir | src/aiofm/protocols/memory.py:156-157 | `mkdir` has the outcome of `mkdirs` |
| Namespace.MkdirsIdempotent | src/aiofm/protocols/memory.py:159-160 | two `mkdirs` calls on the same path leave what one leaves |
| Namespace.MkdirsNoOpIff | src/aiofm/protocols/memory.py:159-160 | `mkdirs` leaves the tree unchanged exactly when p already held an empty directory, and it never fails over an existing directory |
| Namespace.MkdirsShape | src/aiofm/protocols/memory.py:45-66 | `mkdirs` keeps the ancestors' keys in order, appends a missing segment at the end, and changes nothing off p |
| Namespace.Rm | src/aiofm/protocols/memory.py:166-167 | `rm` of a missing path is a no-op; it fails only for the empty path or a non-directory parent, then with the tree untouched; in a valid tree an existing path is gone afterwards |
| Namespace.RmShape | src/aiofm/protocols/memory.py:27-33 | after `rm` of an existing path, nothing below it exists, nothing off it changed, and its parent lost exactly that key |
| Namespace.CpLeaf | src/aiofm/protocols/memory.py:122-154 | `cp` of a non-directory that passes the up-front checks succeeds exactly when set-with-create at CpTarget does, and leaves the same tree |
| Namespace.Cp | src/aiofm/protocols/memory.py:122-154 | every exception of `cp`, including a conflict re-raised through its except clause, is raised with the tree untouched |
| Namespace.CpErrors | src/aiofm/protocols/memory.py:126-142 | a missing source raises FileNotFoundError; a destination through a file raises TypeError; an existing file destination raises ValueError when written with a separator (checked first) or when the source is a directory |
| Namespace.CpDirNoOp | src/aiofm/protocols/memory.py:132-134 | a directory source onto a directory or a missing path leaves the tree unchanged |
| Namespace.CpLeafDir | src/aiofm/protocols/memory.py:132-136 | a file copied onto an existing directory succeeds exactly when set-with-create at dst/name(src) does, storing the same tree, and on failure leaves the tree untouched |
| Namespace.CpLeafLeaf | src/aiofm/protocols/memory.py:137-146 | a file copied onto an existing non-directory without a separator behaves exactly as the all-or-nothing set at dst |
| Namespace.CpLeafIntoDir | src/aiofm/protocols/memory.py:132-136 | a file onto an existing directory lands at dst/name(src) when that slot is free or of the same kind |
| Namespace.CpLeafIntoMissing | src/aiofm/protocols/memory.py:147-154 | a file onto a missing destination always succeeds; it lands under dst/name(src) with a trailing separator and at dst without one |
| Namespace.CpLeafOntoLeaf | src/aiofm/protocols/memory.py:137-146 | a file onto an existing non-directory without a separator overwrites it exactly when the kinds match, and otherwise raises FileNotFoundError with the tree untouched |
| Namespace.CpPreservesSource | src/aiofm/protocols/memory.py:122-154 | a successful `cp` leaves the source as it was |
| Namespace.Mv | src/aiofm/protocols/memory.py:162-164 | when `cp` fails, `mv` raises the same exception with the tree untouched, so the source stays in place; after a successful `cp`, `mv` fails exactly for the empty source path |
| Namespace.RmAfterCp | src/aiofm/protocols/memory.py:162-167 | after a successful `cp`, `rm` of the source fails exactly for the empty path, because `cp` left the source and its parent directories in place |
| Namespace.CpLeafResult | src/aiofm/protocols/memory.py:162-164 | after the `cp` step of `mv` on a file, the content sits at both the source and CpTarget, and a valid tree stays valid |
| Namespace.MvLeaf | src/aiofm/protocols/memory.py:162-164 | moving a file to a target other than itself removes the source and leaves its content at the target |
| Namespace.MvDirDropsSource | src/aiofm/protocols/memory.py:162-164 | moving a directory onto a directory or a missing path is just `rm` of the source |
| Namespace.MvOntoItselfLosesFile | src/aiofm/protocols/memory.py:162-164 | when `cp` puts a file back at its own path, `mv` leaves that path empty |
| Namespace.LsSuiteExample | src/aiofm/protocols/memory.py:77-80 | on the test suite's tree, `ls('/tmp')` gives `('xxx', 'a.txt')` |
| Namespace.MvIntoOwnDirectoryExample | src/aiofm/protocols/memory.py:162-164 | on the test suite's tree, `mv('/tmp/a.txt', '/tmp')` succeeds and leaves `/tmp/a.txt` missing |
| Namespace.MvSafe | src/aiofm/protocols/memory.py:162-164 | the corrected `mv` raises `cp`'s exception with the tree untouched when `cp` fails, and for a non-empty source raises nothing when `cp` succeeds |
| Namespace.MvSafeKeepsFile | src/aiofm/protocols/memory.py:162-164 | with the corrected `mv` a file's content always ends at CpTarget, and the source is gone whenever it differs from the target |
| Handles.Open | src/aiofm/protocols/memory.py:83-95 | an existing file opens with its bytes as the buffer at position 0 in every mode; a missing path raises FileNotFoundError exactly when neither 'w' nor 'a' is in the mode; a dict or stream object raises AttributeError in text mode; a fresh handle starts empty |
| Handles.NewStreamError | src/aiofm/protocols/memory.py:84-106 | the empty stream for a missing path is built without error exactly when `newline` is the only keyword besides `mode` and the mode was not passed by position |
| Handles.Overwrite | src/aiofm/helpers.py:9-25 | a write the stream accepts overwrites the buffer from the position, keeps the bytes before it and after the written span, pads a gap with zeros, and advances by the data length |
| Handles.Write | src/aiofm/protocols/memory.py:90-110 | writing what the mode names raises TypeError exactly on a text stream built for a missing path in binary mode, and is the overwrite otherwise |
| Handles.Read | src/aiofm/helpers.py:18-25 | a read returns the rest of the buffer after the position and moves to the end |
| Handles.Close | src/aiofm/protocols/memory.py:97-112 | a seeded handle without 'w' leaves the tree unchanged; otherwise the commit either raises with the tree untouched or leaves the buffer (or the stream object, for a fresh handle) at the path; a failed commit of a seeded handle surfaces as RuntimeError |
| Handles.CloseFrame | src/aiofm/protocols/memory.py:97-112 | closing changes nothing at paths that are neither ancestors nor descendants of the handle's path |
| Handles.StoreOverFile | src/aiofm/protocols/memory.py:97-103 | storing file bytes over an existing file always succeeds |
| Handles.WriteCloseRead | src/aiofm/protocols/memory.py:83-103 | writing B in 'w' mode over an existing file, closing and reading back gives B followed by the old bytes beyond B's length |
| Handles.ReadModesCommitNothing | src/aiofm/protocols/memory.py:97 | without 'w' in the mode, whatever was written is dropped and the tree is unchanged |
| Handles.CreatedFileUnreadable | src/aiofm/protocols/memory.py:104-110 | on a missing path opened to write or append, writing bytes in binary mode raises TypeError; a text write fills the buffer; either way the path afterwards holds the stream object and reopens with AttributeError in text mode and TypeError in binary mode |
| Handles.CloseFixed | src/aiofm/protocols/memory.py:104-110 | the corrected close stores a fresh handle's buffer as file bytes, all-or-nothing |
| Handles.CreatedFileRoundTrip | src/aiofm/protocols/memory.py:104-110 | with the corrected stream and close, writing B to a missing path and reading it back in any mode gives exactly B; in text mode the write is the source's own |

## Left out

- Path parsing (`_split_path`, src/aiofm/protocols/memory.py:17-24) is a foreign library. Paths arrive as segment sequences, and `cp` gets the trailing-separator flag as a `bool`.
- Only the POSIX anchor `"/"` is handled by `Name`/`Parent`; Windows drives and UNC anchors are not.
- The root of the tree is any `Node`. In the program it is always a dict, so the results for a non-dict root are never observed.
- Handles.Open: text mode treats decoding as the identity. So the UnicodeDecodeError raised by bytes that are not valid UTF-8 is not modelled, and neither is the `encoding` argument.
- Handles.Open: only the mode may be passed by position. Further positional arguments, which would reach the stream constructor, are not modelled.
- Handles.NewStreamError: a `newline` keyword is taken to carry a legal value. The ValueError or TypeError that `StringIO` raises for an illegal one is not modelled.
- Handles.Write: the data is what the mode names, bytes in binary mode and text otherwise. Writing the other kind, which raises TypeError on an existing file's stream too, is not modelled.
- Handles.Close: models only a normal exit from the block. An exception raised inside the block is thrown into the generator and takes other paths; that case is left out.
- Async plumbing and cancellation are left out: there is no scheduling inside the in-memory core.
- Stream calls other than `write` and `read()` are left out, such as `seek`, `truncate`, `readline`, `read(n)` and the use of a stream after close.
- `Opaque` nodes have no content. A stream object stored by `open` stays reachable through the caller's variable and may change later. `ls` on one is reported as `StreamLines` without its lines.
- `glob` returns `None` and is not modelled.
- The object-storage backend, the manager and the scheme lookup are not part of this model.
- Exception messages are not modelled; only the exception type is.

## Findings

| source | as written | input that shows it | evidently intended | confidence | as-written member | corrected member |
|---|---|---|---|---|---|---|
| src/aiofm/protocols/memory.py:162-164 | `mv` always removes the source after `cp`, even when `cp` wrote the file back to the source path | the test suite's tree `{'/': {'tmp': {'xxx': {}, 'a.txt': b'data data data'}}}`, `mv('/tmp/a.txt', '/tmp')` (or `mv(p, p)`): `/tmp/a.txt` is gone | moving a file to where it already is leaves it in place | high, not executed | Namespace.MvIntoOwnDirectoryExample | Namespace.MvSafe |
| src/aiofm/protocols/memory.py:104-110 | a missing path opened with 'w' or 'a' gets the stream object itself stored on exit, not its bytes | empty `/tmp`, `open('/tmp/b.txt', mode='w')`, write `'x'`, exit; then `open('/tmp/b.txt')` raises AttributeError (TypeError with 'rb') | the buffer's bytes are stored, as lines 97-103 do for an existing file, so the file reads back as written | high, not executed | Handles.CreatedFileUnreadable | Handles.CloseFixed |
| src/aiofm/protocols/memory.py:104-108 | a missing path opened with 'wb' or 'ab' gets a text stream, so writing bytes to it raises TypeError | empty `/tmp`, `open('/tmp/b.txt', mode='wb')`, write `b'x'`: TypeError | a binary stream in binary mode, as line 91 builds for an existing file, so the bytes are written and stored | high, not executed | Handles.CreatedFileUnreadable | Handles.CreatedFileRoundTrip |
