/** The namespace tree: a directory is an insertion-ordered association list
    from segment names to child nodes (a Python dict), a file is a byte string
    (Python bytes), and an opaque node stands for a stream object the engine
    stored in the tree itself. */
module Nodes {

  import opened Errors

  datatype Node =
    | Dir(entries: seq<Entry>)
    | File(data: seq<bv8>)
    | Opaque

  datatype Entry = Entry(name: string, node: Node)

  /** Python compares `type(old) != type(new)`: two nodes conflict when
      their kinds differ. */
  predicate SameKind(a: Node, b: Node) {
    (a.Dir? && b.Dir?) || (a.File? && b.File?) || (a.Opaque? && b.Opaque?)
  }

  /** The child names in insertion order: what iterating the dict yields. */
  function Keys(es: seq<Entry>): (ks: seq<string>)
    ensures |ks| == |es|
    ensures forall j :: 0 <= j < |es| ==> ks[j] == es[j].name
  {
    seq(|es|, j requires 0 <= j < |es| => es[j].name)
  }

  /** Position of the entry named k, or |es| when there is none. */
  function IndexOf(es: seq<Entry>, k: string): (i: nat)
    ensures i <= |es|
    ensures i < |es| ==> es[i].name == k
    ensures forall j :: 0 <= j < i ==> es[j].name != k
  {
    if |es| == 0 then 0
    else if es[0].name == k then 0
    else 1 + IndexOf(es[1..], k)
  }

  /** `d[k]` on a dict: the child named k, if any. */
  function Child(es: seq<Entry>, k: string): (r: Option<Node>)
    ensures r.Some? <==> k in Keys(es)
    ensures r.Some? ==> exists j :: 0 <= j < |es| && es[j] == Entry(k, r.value)
  {
    var i := IndexOf(es, k);
    if i < |es| then Some(es[i].node) else None
  }

  /** `d[k] = v` on a dict: an existing key keeps its position, a new key
      is appended. */
  function Assign(es: seq<Entry>, k: string, v: Node): (r: seq<Entry>)
    ensures Keys(r) == if k in Keys(es) then Keys(es) else Keys(es) + [k]
    ensures Child(r, k) == Some(v)
    ensures forall k' :: k' != k ==> Child(r, k') == Child(es, k')
    ensures forall e :: e in r ==> e in es || e == Entry(k, v)
    ensures UniqueKeys(es) ==> UniqueKeys(r)
  {
    var i := IndexOf(es, k);
    if i < |es| then
      var r := es[i := Entry(k, v)];
      IndexOfSameNames(es, r, k);
      forall k' | k' != k
        ensures Child(r, k') == Child(es, k')
      {
        IndexOfSameNames(es, r, k');
      }
      r
    else
      var r := es + [Entry(k, v)];
      assert Keys(r) == Keys(es) + [k];
      forall k' | k' != k
        ensures Child(r, k') == Child(es, k')
      {
        IndexOfAppend(es, Entry(k, v), k');
      }
      IndexOfAppend(es, Entry(k, v), k);
      r
  }

  /** `del d[k]` on a dict that holds k; the dict unchanged otherwise. */
  function Delete(es: seq<Entry>, k: string): (r: seq<Entry>)
    ensures k !in Keys(es) ==> r == es
    ensures k in Keys(es) ==> |r| == |es| - 1
    ensures forall k' :: k' != k ==> Child(r, k') == Child(es, k')
    ensures forall e :: e in r ==> e in es
    ensures UniqueKeys(es) ==> UniqueKeys(r) && Child(r, k) == None
  {
    var i := IndexOf(es, k);
    if i < |es| then
      var r := es[..i] + es[i + 1..];
      forall k' | k' != k
        ensures Child(r, k') == Child(es, k')
      {
        IndexOfDelete(es, i, k');
      }
      r
    else es
  }

  /** No two entries of one directory share a name (a dict's keys). */
  predicate UniqueKeys(es: seq<Entry>) {
    forall a, b :: 0 <= a < b < |es| ==> es[a].name != es[b].name
  }

  /** Every directory in the tree has unique keys. */
  predicate Valid(n: Node)
    decreases n
  {
    match n
    case Dir(es) => UniqueKeys(es) && forall e | e in es :: Valid(e.node)
    case _ => true
  }

  /** Assigning the same key twice keeps only the second value, in the
      position the first assignment gave it. */
  lemma AssignTwice(es: seq<Entry>, k: string, a: Node, b: Node)
    ensures Assign(Assign(es, k, a), k, b) == Assign(es, k, b)
  {
    var i := IndexOf(es, k);
    if i < |es| {
      var ea := es[i := Entry(k, a)];
      assert Assign(es, k, a) == ea;
      IndexOfSameNames(es, ea, k);
      assert Assign(ea, k, b) == ea[i := Entry(k, b)];
      assert ea[i := Entry(k, b)] == es[i := Entry(k, b)];
    } else {
      var ea := es + [Entry(k, a)];
      assert Assign(es, k, a) == ea;
      IndexOfAppend(es, Entry(k, a), k);
      assert Assign(ea, k, b) == ea[|es| := Entry(k, b)];
      assert ea[|es| := Entry(k, b)] == es + [Entry(k, b)];
    }
  }

  /** Assigning a key the value it already holds changes nothing. */
  lemma AssignExisting(es: seq<Entry>, k: string)
    requires Child(es, k).Some?
    ensures Assign(es, k, Child(es, k).value) == es
  {
    var i := IndexOf(es, k);
    assert es[i := Entry(k, es[i].node)] == es;
  }

  // ---- helper lemmas about first-match search ----

  /** IndexOf is the one position meeting the first-match description. */
  lemma IndexOfUnique(es: seq<Entry>, k: string, m: nat)
    requires m <= |es|
    requires m < |es| ==> es[m].name == k
    requires forall j :: 0 <= j < m ==> es[j].name != k
    ensures IndexOf(es, k) == m
  {
  }

  lemma IndexOfSameNames(es: seq<Entry>, es': seq<Entry>, k: string)
    requires |es| == |es'|
    requires forall j :: 0 <= j < |es| ==> es[j].name == es'[j].name
    ensures IndexOf(es, k) == IndexOf(es', k)
  {
    IndexOfUnique(es', k, IndexOf(es, k));
  }

  lemma IndexOfAppend(es: seq<Entry>, e: Entry, k: string)
    ensures IndexOf(es + [e], k) ==
      if IndexOf(es, k) < |es| then IndexOf(es, k)
      else if e.name == k then |es| else |es| + 1
  {
    var r := es + [e];
    var i := IndexOf(es, k);
    var m := if i < |es| then i else if e.name == k then |es| else |es| + 1;
    assert forall j :: 0 <= j < |es| ==> r[j] == es[j];
    IndexOfUnique(r, k, m);
  }

  lemma IndexOfDelete(es: seq<Entry>, i: nat, k: string)
    requires i < |es| && es[i].name != k
    ensures Child(es[..i] + es[i + 1..], k) == Child(es, k)
  {
    var r := es[..i] + es[i + 1..];
    var m := IndexOf(es, k);
    assert forall j :: 0 <= j < i ==> r[j] == es[j];
    assert forall j :: i <= j < |r| ==> r[j] == es[j + 1];
    var m' := if m < i then m else m - 1;
    IndexOfUnique(r, k, m');
  }

  /** The names ks with every occurrence of k dropped, the rest in order. */
  function Erase(ks: seq<string>, k: string): seq<string> {
    if |ks| == 0 then []
    else (if ks[0] == k then [] else [ks[0]]) + Erase(ks[1..], k)
  }

  lemma {:induction false} EraseAppend(a: seq<string>, b: seq<string>, k: string)
    ensures Erase(a + b, k) == Erase(a, k) + Erase(b, k)
  {
    if |a| == 0 {
      assert a + b == b;
    } else {
      assert (a + b)[1..] == a[1..] + b;
      EraseAppend(a[1..], b, k);
    }
  }

  lemma {:induction false} EraseAbsent(ks: seq<string>, k: string)
    requires k !in ks
    ensures Erase(ks, k) == ks
  {
    if |ks| > 0 {
      assert ks == [ks[0]] + ks[1..];
      EraseAbsent(ks[1..], k);
    }
  }

  /** In a dict with unique keys, `del d[k]` drops exactly the name k from
      the key order and keeps the other names in order. */
  lemma KeysDelete(es: seq<Entry>, k: string)
    requires UniqueKeys(es)
    ensures Keys(Delete(es, k)) == Erase(Keys(es), k)
  {
    var i := IndexOf(es, k);
    if i < |es| {
      KeysSplice(es, i);
      var ks := Keys(es);
      assert k !in ks[i + 1..] by {
        forall j | i + 1 <= j < |es|
          ensures ks[j] != k
        {
        }
      }
      EraseAt(ks, i, k);
    } else {
      EraseAbsent(Keys(es), k);
    }
  }

  /** The names of es with entry i cut out. */
  lemma KeysSplice(es: seq<Entry>, i: nat)
    requires i < |es|
    ensures Keys(es[..i] + es[i + 1..]) == Keys(es)[..i] + Keys(es)[i + 1..]
  {
    var l := Keys(es[..i] + es[i + 1..]);
    var r := Keys(es)[..i] + Keys(es)[i + 1..];
    assert |l| == |r|;
    forall j | 0 <= j < |l|
      ensures l[j] == r[j]
    {
      if j < i {
        assert r[j] == es[j].name;
      } else {
        assert r[j] == es[j + 1].name;
      }
    }
  }

  /** Erasing a name that occurs only at position i cuts out position i. */
  lemma EraseAt(ks: seq<string>, i: nat, k: string)
    requires i < |ks| && ks[i] == k && k !in ks[..i] && k !in ks[i + 1..]
    ensures Erase(ks, k) == ks[..i] + ks[i + 1..]
  {
    assert ks == ks[..i] + ([k] + ks[i + 1..]);
    EraseAround(ks[..i], ks[i + 1..], k);
  }

  lemma EraseAround(a: seq<string>, b: seq<string>, k: string)
    requires k !in a && k !in b
    ensures Erase(a + ([k] + b), k) == a + b
  {
    EraseHead(b, k);
    EraseAppend(a, [k] + b, k);
    EraseAbsent(a, k);
    EraseAbsent(b, k);
  }

  lemma EraseHead(b: seq<string>, k: string)
    ensures Erase([k] + b, k) == Erase(b, k)
  {
    assert ([k] + b)[0] == k && ([k] + b)[1..] == b;
  }
}
