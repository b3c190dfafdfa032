/** Walking the tree: the lookup primitive (a fold of `getitem` over the
    segments), in-place replacement of the node at an existing path (what
    assigning into a dict reached by a walk amounts to), and the chain of
    fresh directories that set-with-create builds below a missing key. */
module Walk {

  import opened Errors
  import opened Nodes

  /** `_get_tree_item`: follow the segments in order from t; a missing key
      raises FileNotFoundError, stepping into a non-directory raises
      TypeError (bytes and stream objects cannot be indexed by a string). */
  function Lookup(t: Node, p: seq<string>): (r: Result<Node>)
    ensures |p| == 0 ==> r == Ok(t)
    ensures r.Err? ==> r.error == NotFound || r.error == TypeErr
    decreases |p|
  {
    if |p| == 0 then Ok(t)
    else if !t.Dir? then Err(TypeErr)
    else match Child(t.entries, p[0])
      case None => Err(NotFound)
      case Some(c) => Lookup(c, p[1..])
  }

  /** The node at q exists and is not a directory. */
  predicate NonDirAt(t: Node, q: seq<string>) {
    Lookup(t, q).Ok? && !Lookup(t, q).value.Dir?
  }

  /** The node at q is a directory. */
  predicate DirAt(t: Node, q: seq<string>) {
    Lookup(t, q).Ok? && Lookup(t, q).value.Dir?
  }

  /** The node at q is a directory without a child named k. */
  predicate MissingAt(t: Node, q: seq<string>, k: string) {
    DirAt(t, q) && k !in Keys(Lookup(t, q).value.entries)
  }

  /** Lookup is compositional: walking a + b walks a, then b from there. */
  lemma {:induction false} LookupAppend(t: Node, a: seq<string>, b: seq<string>)
    ensures Lookup(t, a + b) ==
      match Lookup(t, a)
      case Ok(n) => Lookup(n, b)
      case Err(e) => Err(e)
    decreases |a|
  {
    if |a| == 0 {
      assert a + b == b;
    } else if t.Dir? {
      assert (a + b)[0] == a[0];
      assert (a + b)[1..] == a[1..] + b;
      match Child(t.entries, a[0])
      case None =>
      case Some(c) => LookupAppend(c, a[1..], b);
    }
  }

  /** One more segment: the child of the directory reached by q. */
  lemma LookupStep(t: Node, q: seq<string>, k: string)
    ensures Lookup(t, q + [k]) ==
      match Lookup(t, q)
      case Ok(n) => (if !n.Dir? then Err(TypeErr)
                     else match Child(n.entries, k)
                       case None => Err(NotFound)
                       case Some(c) => Ok(c))
      case Err(e) => Err(e)
  {
    LookupAppend(t, q, [k]);
  }

  /** The TypeError case: some node strictly above the end of p is not a
      directory. */
  lemma {:induction false} LookupTypeErrIff(t: Node, p: seq<string>)
    ensures Lookup(t, p) == Err(TypeErr) <==>
      exists i :: 0 <= i < |p| && NonDirAt(t, p[..i])
    decreases |p|
  {
    if |p| == 0 {
    } else if !t.Dir? {
      assert NonDirAt(t, p[..0]);
    } else {
      match Child(t.entries, p[0])
      case None =>
        forall i | 0 <= i < |p|
          ensures !NonDirAt(t, p[..i])
        {
          if i > 0 { assert p[..i][0] == p[0]; }
        }
      case Some(c) =>
        LookupTypeErrIff(c, p[1..]);
        forall i | 0 < i < |p|
          ensures NonDirAt(t, p[..i]) == NonDirAt(c, p[1..][..i - 1])
        {
          assert p[..i][0] == p[0] && p[..i][1..] == p[1..][..i - 1];
        }
        if exists i :: 0 <= i < |p| && NonDirAt(t, p[..i]) {
          var i :| 0 <= i < |p| && NonDirAt(t, p[..i]);
          assert NonDirAt(c, p[1..][..i - 1]);
        }
        if exists i :: 0 <= i < |p| - 1 && NonDirAt(c, p[1..][..i]) {
          var i :| 0 <= i < |p| - 1 && NonDirAt(c, p[1..][..i]);
          assert NonDirAt(t, p[..i + 1]);
        }
    }
  }

  /** The FileNotFoundError case: walking p reaches a directory that lacks
      the next segment, with only directories above it. */
  lemma {:induction false} LookupNotFoundIff(t: Node, p: seq<string>)
    ensures Lookup(t, p) == Err(NotFound) <==>
      exists i :: 0 <= i < |p| && MissingAt(t, p[..i], p[i])
    decreases |p|
  {
    if |p| == 0 {
    } else if !t.Dir? {
      forall i | 0 <= i < |p|
        ensures !MissingAt(t, p[..i], p[i])
      {
        if i > 0 { assert p[..i][0] == p[0]; }
      }
    } else {
      match Child(t.entries, p[0])
      case None =>
        assert MissingAt(t, p[..0], p[0]);
      case Some(c) =>
        LookupNotFoundIff(c, p[1..]);
        assert !MissingAt(t, p[..0], p[0]);
        forall i | 0 < i < |p|
          ensures MissingAt(t, p[..i], p[i]) == MissingAt(c, p[1..][..i - 1], p[1..][i - 1])
        {
          assert p[..i][0] == p[0] && p[..i][1..] == p[1..][..i - 1];
        }
        if exists i :: 0 <= i < |p| && MissingAt(t, p[..i], p[i]) {
          var i :| 0 <= i < |p| && MissingAt(t, p[..i], p[i]);
          assert MissingAt(c, p[1..][..i - 1], p[1..][i - 1]);
        }
        if exists i :: 0 <= i < |p| - 1 && MissingAt(c, p[1..][..i], p[1..][i]) {
          var i :| 0 <= i < |p| - 1 && MissingAt(c, p[1..][..i], p[1..][i]);
          assert MissingAt(t, p[..i + 1], p[i + 1]);
        }
    }
  }

  /** The node that assigning n at the existing path p produces: every dict
      on the way keeps its keys in place. */
  function Replace(t: Node, p: seq<string>, n: Node): (r: Node)
    requires Lookup(t, p).Ok?
    ensures Lookup(r, p) == Ok(n)
    ensures |p| > 0 ==> r.Dir? && Keys(r.entries) == Keys(t.entries)
    decreases |p|
  {
    if |p| == 0 then n
    else
      var c := Child(t.entries, p[0]).value;
      Dir(Assign(t.entries, p[0], Replace(c, p[1..], n)))
  }

  /** After a directory d is put at q, the path one segment further leads
      to d's child. */
  lemma LookupReplaceChild(t: Node, q: seq<string>, d: Node, k: string)
    requires Lookup(t, q).Ok? && d.Dir? && Child(d.entries, k).Some?
    ensures Lookup(Replace(t, q, d), q + [k]) == Ok(Child(d.entries, k).value)
  {
    LookupStep(Replace(t, q, d), q, k);
  }

  /** Nodes off the path p, and off everything below it, are untouched by
      a replacement at p. */
  lemma {:induction false} ReplaceFrame(t: Node, p: seq<string>, n: Node, q: seq<string>)
    requires Lookup(t, p).Ok?
    requires !(p <= q) && !(q <= p)
    ensures Lookup(Replace(t, p, n), q) == Lookup(t, q)
    decreases |p|
  {
    var c := Child(t.entries, p[0]).value;
    if q[0] == p[0] {
      assert !(p[1..] <= q[1..]) && !(q[1..] <= p[1..]);
      ReplaceFrame(c, p[1..], n, q[1..]);
    }
  }

  /** Directories strictly above p keep their keys. */
  lemma {:induction false} ReplaceKeysAbove(t: Node, p: seq<string>, n: Node, i: nat)
    requires Lookup(t, p).Ok? && i < |p|
    ensures DirAt(t, p[..i]) && DirAt(Replace(t, p, n), p[..i])
    ensures Keys(Lookup(Replace(t, p, n), p[..i]).value.entries) == Keys(Lookup(t, p[..i]).value.entries)
    decreases |p|
  {
    LookupPrefixDir(t, p, i);
    if i > 0 {
      var c := Child(t.entries, p[0]).value;
      ReplaceKeysAbove(c, p[1..], n, i - 1);
      ReplaceBelow(t, p, n, i);
    }
  }

  /** Below the root, the directories above p seen from t are those above
      p[1..] seen from t's child p[0], before and after the replacement. */
  lemma ReplaceBelow(t: Node, p: seq<string>, n: Node, i: nat)
    requires Lookup(t, p).Ok? && 0 < i < |p|
    ensures t.Dir? && Child(t.entries, p[0]).Some?
    ensures var c := Child(t.entries, p[0]).value;
      && Lookup(t, p[..i]) == Lookup(c, p[1..][..i - 1])
      && Lookup(Replace(t, p, n), p[..i]) == Lookup(Replace(c, p[1..], n), p[1..][..i - 1])
  {
    assert p[..i][0] == p[0] && p[..i][1..] == p[1..][..i - 1];
  }

  /** Replacing twice at the same path keeps only the second. */
  lemma {:induction false} ReplaceTwice(t: Node, p: seq<string>, a: Node, b: Node)
    requires Lookup(t, p).Ok?
    ensures Replace(Replace(t, p, a), p, b) == Replace(t, p, b)
    decreases |p|
  {
    if |p| > 0 {
      var c := Child(t.entries, p[0]).value;
      var t1 := Replace(t, p, a);
      var c1 := Child(t1.entries, p[0]).value;
      assert c1 == Replace(c, p[1..], a);
      ReplaceTwice(c, p[1..], a, b);
      AssignTwice(t.entries, p[0], Replace(c, p[1..], a), Replace(c, p[1..], b));
    }
  }

  /** Replacing a node by itself changes nothing. */
  lemma {:induction false} ReplaceSame(t: Node, p: seq<string>)
    requires Lookup(t, p).Ok?
    ensures Replace(t, p, Lookup(t, p).value) == t
    decreases |p|
  {
    if |p| > 0 {
      var c := Child(t.entries, p[0]).value;
      ReplaceSame(c, p[1..]);
      var es := t.entries;
      var i := IndexOf(es, p[0]);
      assert es[i := Entry(p[0], c)] == es;
    }
  }

  /** The nested fresh directories set-with-create leaves below a missing
      key: a chain of one-entry dicts ending in v. */
  function Chain(p: seq<string>, v: Node): (r: Node)
    ensures Lookup(r, p) == Ok(v)
    ensures |p| > 0 ==> r.Dir? && Keys(r.entries) == [p[0]]
    decreases |p|
  {
    if |p| == 0 then v else Dir([Entry(p[0], Chain(p[1..], v))])
  }

  /** Off the chain, nothing exists. */
  lemma {:induction false} ChainOff(p: seq<string>, v: Node, q: seq<string>)
    requires !(p <= q) && !(q <= p)
    ensures Lookup(Chain(p, v), q) == Err(NotFound)
    decreases |p|
  {
    if q[0] == p[0] {
      assert !(p[1..] <= q[1..]) && !(q[1..] <= p[1..]);
      ChainOff(p[1..], v, q[1..]);
    }
  }

  /** Strictly above its end, the chain is a directory holding only the
      next segment. */
  lemma {:induction false} ChainAbove(p: seq<string>, v: Node, i: nat)
    requires i < |p|
    ensures DirAt(Chain(p, v), p[..i]) && Keys(Lookup(Chain(p, v), p[..i]).value.entries) == [p[i]]
    decreases |p|
  {
    if i > 0 {
      ChainAbove(p[1..], v, i - 1);
      assert p[..i][0] == p[0] && p[..i][1..] == p[1..][..i - 1];
    }
  }

  /** Every proper prefix of an existing path is a directory. */
  lemma LookupPrefixDir(t: Node, p: seq<string>, i: nat)
    requires Lookup(t, p).Ok? && i < |p|
    ensures DirAt(t, p[..i])
  {
    LookupAppend(t, p[..i], p[i..]);
    assert p[..i] + p[i..] == p;
  }

  /** Below a missing path nothing exists either. */
  lemma LookupBelowMissing(t: Node, a: seq<string>, q: seq<string>)
    requires Lookup(t, a) == Err(NotFound) && a <= q
    ensures Lookup(t, q) == Err(NotFound)
  {
    LookupAppend(t, a, q[|a|..]);
    assert a + q[|a|..] == q;
  }

  /** Subtrees of a valid tree are valid. */
  lemma {:induction false} LookupValid(t: Node, p: seq<string>)
    requires Valid(t) && Lookup(t, p).Ok?
    ensures Valid(Lookup(t, p).value)
    decreases |p|
  {
    if |p| > 0 {
      var c := Child(t.entries, p[0]).value;
      assert Entry(p[0], c) in t.entries;
      LookupValid(c, p[1..]);
    }
  }

  /** Two different paths that both hold non-directories are not prefixes
      of one another. */
  lemma LeavesApart(t: Node, a: seq<string>, b: seq<string>)
    requires NonDirAt(t, a) && NonDirAt(t, b) && a != b
    ensures !(a <= b) && !(b <= a)
  {
    if a < b {
      assert b[..|a|] == a;
      LookupPrefixDir(t, b, |a|);
    } else if b < a {
      assert a[..|b|] == b;
      LookupPrefixDir(t, a, |b|);
    }
  }
}
