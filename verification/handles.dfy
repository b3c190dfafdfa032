/** `open`: a scoped handle over a private buffer, committed when the
    block exits normally.

    The handle is the stream object the generator yields: for an existing
    file a `BytesIO` in binary mode and a `StringIO` otherwise, for a
    missing path a `StringIO` in every mode. Both are modelled as one byte
    buffer with a position, because text is decoded and re-encoded with the
    same codec on the way in and out; the caller writes what the mode names
    (bytes in binary mode, text otherwise). `Open` is what happens before the
    first `yield`; `Write` and `Read` are calls on the stream while the
    block runs (they never touch the tree); `Close` is what happens when the
    block exits normally and the generator is resumed, applied to the tree
    as it stands at that moment. */
module Handles {

  import opened Errors
  import opened Nodes
  import opened Paths
  import opened Walk
  import opened Assignment

  /** How `open` was called: the mode string, whether it was the first
      positional argument (rather than the `mode` keyword), and the names
      of the keywords passed besides `mode` (such as `encoding`). */
  datatype OpenArgs = OpenArgs(mode: string, modeByPosition: bool, keywords: set<string>)

  /** The mode asks for bytes rather than text. */
  predicate Binary(a: OpenArgs) { 'b' in a.mode }

  /** The mode commits the buffer of an existing file on exit. */
  predicate Writes(a: OpenArgs) { 'w' in a.mode }

  /** The mode opens a missing path instead of re-raising FileNotFoundError. */
  predicate Creates(a: OpenArgs) { 'w' in a.mode || 'a' in a.mode }

  /** Where the buffer of a handle came from. */
  datatype Origin =
    | Seeded   // the bytes of an existing file
    | Fresh    // an empty text stream built for a missing path

  datatype Handle = Handle(path: Path, args: OpenArgs, origin: Origin, buffer: seq<bv8>, pos: nat)

  /** The exception raised while building the empty text stream for a
      missing path, which receives the positional arguments and the
      remaining keywords of `open`. `StringIO` knows only the keyword
      `newline` (whose value is taken to be legal here): any other keyword
      is a TypeError, and so is `newline` given both by name and by
      position. A mode passed by position lands in the `newline` slot,
      where no mode string is a legal value. */
  function NewStreamError(a: OpenArgs): (r: Option<Error>)
    ensures r.None? <==> a.keywords <= {"newline"} && !a.modeByPosition
  {
    if a.keywords - {"newline"} != {} then Some(TypeErr)
    else if a.modeByPosition && "newline" in a.keywords then Some(TypeErr)
    else if a.modeByPosition then Some(ValueErr)
    else None
  }

  /** Entering the `open` block. */
  function Open(t: Node, p: Path, a: OpenArgs): (r: Result<Handle>)
    ensures r.Ok? ==> r.value.path == p && r.value.args == a && r.value.pos == 0
    ensures r.Ok? && r.value.origin.Seeded? ==> Lookup(t, p) == Ok(File(r.value.buffer))
    ensures r.Ok? && r.value.origin.Fresh? ==>
      r.value.buffer == [] && Lookup(t, p) == Err(NotFound) && Creates(a)
    ensures Lookup(t, p).Ok? && Lookup(t, p).value.File? ==>
      r == Ok(Handle(p, a, Seeded, Lookup(t, p).value.data, 0))
    ensures r == Err(NotFound) <==> Lookup(t, p) == Err(NotFound) && !Creates(a)
    ensures r == Err(AttributeErr) <==>
      Lookup(t, p).Ok? && !Lookup(t, p).value.File? && !Binary(a)
    ensures r.Ok? <==>
      (Lookup(t, p).Ok? && Lookup(t, p).value.File?) ||
      (Lookup(t, p) == Err(NotFound) && Creates(a) && NewStreamError(a).None?)
  {
    match Lookup(t, p)
    case Ok(n) =>
      if n.File? then Ok(Handle(p, a, Seeded, n.data, 0))
      else if Binary(a) then Err(TypeErr)   // BytesIO of a dict or of a stream object
      else Err(AttributeErr)                // neither has a `decode` method
    case Err(e) =>
      if e == NotFound && Creates(a) then
        match NewStreamError(a)
        case Some(e') => Err(e')
        case None => Ok(Handle(p, a, Fresh, [], 0))
      else Err(e)
  }

  /** n zero bytes. */
  function Zeros(n: nat): (z: seq<bv8>)
    ensures |z| == n && forall i :: 0 <= i < n ==> z[i] == 0
  {
    seq(n, _ => 0)
  }

  /** What `write` does to a stream that accepts the data: overwrite the
      buffer from the current position on, padding with zeros if the
      position lies past the end, and advance. */
  function Overwrite(h: Handle, data: seq<bv8>): (r: Handle)
    ensures r.path == h.path && r.args == h.args && r.origin == h.origin
    ensures r.pos == h.pos + |data|
    ensures |r.buffer| == if h.pos + |data| < |h.buffer| then |h.buffer| else h.pos + |data|
    ensures r.buffer[h.pos..r.pos] == data
    ensures forall i :: 0 <= i < h.pos && i < |h.buffer| ==> r.buffer[i] == h.buffer[i]
    ensures forall i :: |h.buffer| <= i < h.pos ==> r.buffer[i] == 0
    ensures forall i :: r.pos <= i < |h.buffer| ==> r.buffer[i] == h.buffer[i]
  {
    var head := if h.pos <= |h.buffer| then h.buffer[..h.pos] else h.buffer + Zeros(h.pos - |h.buffer|);
    var tail := if h.pos + |data| < |h.buffer| then h.buffer[h.pos + |data|..] else [];
    h.(buffer := head + data + tail, pos := h.pos + |data|)
  }

  /** The handle is a `StringIO` although the mode asks for bytes: a handle
      built for a missing path in binary mode. */
  predicate TextForBytes(h: Handle) { h.origin.Fresh? && Binary(h.args) }

  /** `write` of what the mode names: a `StringIO` given bytes raises
      TypeError and is left as it was; otherwise the data overwrites the
      buffer at the position. */
  function Write(h: Handle, data: seq<bv8>): (r: Result<Handle>)
    ensures r.Err? <==> TextForBytes(h)
    ensures r.Err? ==> r.error == TypeErr
    ensures r.Ok? ==> r.value == Overwrite(h, data)
  {
    if TextForBytes(h) then Err(TypeErr) else Ok(Overwrite(h, data))
  }

  /** `read()`: everything from the current position to the end; the
      position moves to the end (it stays put when it already lies past it). */
  function Read(h: Handle): (r: (seq<bv8>, Handle))
    ensures r.1 == h.(pos := r.1.pos)
    ensures h.pos <= |h.buffer| ==> h.buffer[..h.pos] + r.0 == h.buffer && r.1.pos == |h.buffer|
    ensures h.pos >= |h.buffer| ==> r.0 == [] && r.1.pos == h.pos
  {
    if h.pos <= |h.buffer| then
      assert h.buffer[..h.pos] + h.buffer[h.pos..] == h.buffer;
      (h.buffer[h.pos..], h.(pos := |h.buffer|))
    else ([], h)
  }

  /** What `Close` stores at the handle's path. */
  function Committed(h: Handle): Node {
    if h.origin.Seeded? then File(h.buffer) else Opaque
  }

  /** Leaving the `open` block normally. A seeded handle commits its buffer
      only when 'w' is in the mode; if that store raises FileNotFoundError,
      the generator's own handler catches it, builds a second stream and
      yields again, which the context manager reports as a RuntimeError.
      A fresh handle stores the stream object itself, and whatever that
      store raises propagates. */
  function Close(t: Node, h: Handle): (o: Outcome)
    ensures h.origin.Seeded? && !Writes(h.args) ==> o == Outcome(t, None)
    ensures o.raised.Some? ==> o.tree == t
    ensures o.raised.None? && (h.origin.Fresh? || Writes(h.args)) ==>
      Lookup(o.tree, h.path) == Ok(Committed(h))
    ensures (h.origin.Fresh? || Writes(h.args)) && SetItem(t, h.path, Committed(h)).Ok? ==>
      o == Lift(SetItem(t, h.path, Committed(h)), t)
    ensures o.raised.None? <==>
      (h.origin.Seeded? && !Writes(h.args)) || SetItem(t, h.path, Committed(h)).Ok?
    ensures h.origin.Seeded? && Writes(h.args) && SetItem(t, h.path, File(h.buffer)) == Err(NotFound) ==>
      o.raised == Some(if NewStreamError(h.args).Some? then NewStreamError(h.args).value else RuntimeErr)
  {
    SetTreeItemAllOrNothing(t, h.path, Committed(h));
    match h.origin
    case Seeded =>
      if !Writes(h.args) then Outcome(t, None)
      else
        var o := SetTreeItem(t, h.path, File(h.buffer));
        if o.raised == Some(NotFound) then
          match NewStreamError(h.args)
          case Some(e) => Outcome(o.tree, Some(e))
          case None => Outcome(o.tree, Some(RuntimeErr))
        else o
    case Fresh => SetTreeItem(t, h.path, Opaque)
  }

  /** Closing a handle leaves every path that is neither an ancestor nor a
      descendant of the handle's path as it was. */
  lemma CloseFrame(t: Node, h: Handle, q: Path)
    requires !(h.path <= q) && !(q <= h.path)
    ensures Lookup(Close(t, h).tree, q) == Lookup(t, q)
  {
    if (h.origin.Fresh? || Writes(h.args)) && SetItem(t, h.path, Committed(h)).Ok? {
      SetItemFrame(t, h.path, Committed(h), q);
    }
  }

  /** Storing a file over an existing file always succeeds: every proper
      prefix of its path is a directory and the kinds agree. */
  lemma StoreOverFile(t: Node, p: Path, before: seq<bv8>, v: seq<bv8>)
    requires t.Dir? && Lookup(t, p) == Ok(File(before))
    ensures SetItem(t, p, File(v)).Ok?
  {
    SetItemFailsIff(t, p, File(v));
    forall i | 0 < i < |p|
      ensures !NonDirAt(t, p[..i])
    {
      LookupPrefixDir(t, p, i);
    }
  }

  /** Round trip: write B through a handle opened with 'w' on an existing
      file, close it, reopen the path in any mode and read: the result is B
      followed by whatever of the old content lay beyond |B|, since the
      buffer is seeded with the old bytes and not truncated. */
  lemma WriteCloseRead(t: Node, p: Path, before: seq<bv8>, w: OpenArgs, r: OpenArgs, b: seq<bv8>)
    requires t.Dir? && Lookup(t, p) == Ok(File(before)) && Writes(w)
    ensures Open(t, p, w).Ok? && Write(Open(t, p, w).value, b).Ok?
    ensures Close(t, Write(Open(t, p, w).value, b).value).raised.None?
    ensures Open(Close(t, Write(Open(t, p, w).value, b).value).tree, p, r).Ok?
    ensures Read(Open(Close(t, Write(Open(t, p, w).value, b).value).tree, p, r).value).0 ==
      b + (if |b| < |before| then before[|b|..] else [])
  {
    var h := Write(Open(t, p, w).value, b).value;
    StoreOverFile(t, p, before, h.buffer);
    var o := Close(t, h);
    var h2 := Open(o.tree, p, r).value;
    assert h2.buffer == h.buffer && h2.pos == 0;
    var rest := if |b| < |before| then before[|b|..] else [];
    assert h.buffer == b + rest by {
      assert h.buffer[..|b|] == b;
      if |b| < |before| {
        assert h.buffer[|b|..] == before[|b|..];
        assert h.buffer == h.buffer[..|b|] + h.buffer[|b|..];
      } else {
        assert h.buffer == h.buffer[..|b|];
      }
    }
  }

  /** Without 'w' in the mode, whatever was written is dropped on exit:
      'r', 'rb' and 'a' on an existing file commit nothing. */
  lemma ReadModesCommitNothing(t: Node, p: Path, a: OpenArgs, b: seq<bv8>)
    requires Lookup(t, p).Ok? && Lookup(t, p).value.File? && !Writes(a)
    ensures Write(Open(t, p, a).value, b).Ok?
    ensures Close(t, Write(Open(t, p, a).value, b).value) == Outcome(t, None)
  {
  }

  // ---- the missing-path branch, as written and corrected ----

  /** As written: `open(p, 'w')` or `open(p, 'a')` on a missing path (with
      or without 'b') yields a text stream, so in binary mode writing bytes
      to it raises TypeError; and on exit the stream object itself is
      stored, so reopening the path raises AttributeError in text mode and
      TypeError in binary mode: nothing written can be read back. */
  lemma CreatedFileUnreadable(t: Node, p: Path, w: OpenArgs, r: OpenArgs, b: seq<bv8>)
    requires Lookup(t, p) == Err(NotFound) && Creates(w) && NewStreamError(w).None?
    ensures Open(t, p, w).Ok?
    ensures Write(Open(t, p, w).value, b) == (if Binary(w) then Err(TypeErr) else Ok(Open(t, p, w).value.(buffer := b, pos := |b|)))
    ensures Close(t, Open(t, p, w).value).raised.None?
    ensures Open(Close(t, Open(t, p, w).value).tree, p, r) == Err(if Binary(r) then TypeErr else AttributeErr)
    ensures !Binary(w) ==> Close(t, Write(Open(t, p, w).value, b).value) == Close(t, Open(t, p, w).value)
  {
    SetItemMissingOk(t, p, p, Opaque);
    var h := Open(t, p, w).value;
    if !Binary(w) {
      assert Overwrite(h, b).buffer == b;
    }
  }

  /** Corrected close: a fresh handle commits its buffer as file bytes, as
      a seeded one does. */
  function CloseFixed(t: Node, h: Handle): (o: Outcome)
    ensures h.origin.Fresh? ==> o == Lift(SetItem(t, h.path, File(h.buffer)), t)
    ensures h.origin.Seeded? ==> o == Close(t, h)
  {
    match h.origin
    case Seeded => Close(t, h)
    case Fresh =>
      SetTreeItemAllOrNothing(t, h.path, File(h.buffer));
      SetTreeItem(t, h.path, File(h.buffer))
  }

  /** With the corrected stream for a missing path (a `BytesIO` in binary
      mode, so every write is an `Overwrite`) and the corrected close,
      writing B to a missing path and reading it back in any mode returns
      exactly B. In text mode the write is the one the source performs. */
  lemma CreatedFileRoundTrip(t: Node, p: Path, w: OpenArgs, r: OpenArgs, b: seq<bv8>)
    requires Lookup(t, p) == Err(NotFound) && Creates(w) && NewStreamError(w).None?
    ensures Open(t, p, w).Ok?
    ensures !Binary(w) ==> Write(Open(t, p, w).value, b) == Ok(Overwrite(Open(t, p, w).value, b))
    ensures CloseFixed(t, Overwrite(Open(t, p, w).value, b)).raised.None?
    ensures Open(CloseFixed(t, Overwrite(Open(t, p, w).value, b)).tree, p, r).Ok?
    ensures Read(Open(CloseFixed(t, Overwrite(Open(t, p, w).value, b)).tree, p, r).value).0 == b
  {
    var h := Overwrite(Open(t, p, w).value, b);
    SetItemMissingOk(t, p, p, File(h.buffer));
    assert h.buffer == b;
  }
}
