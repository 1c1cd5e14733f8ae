/** A Python dict[str, str] as the vault uses it: keys are unique and iteration follows
    insertion order, so it is a sequence of pairs rather than a Dafny map. */
module PyDict {
  import opened Outcomes

  type Pair = (string, string)

  predicate UniqueKeys(s: seq<Pair>)
  {
    forall i, j :: 0 <= i < j < |s| ==> s[i].0 != s[j].0
  }

  /** The items() of a dict, in iteration order. */
  type Entries = e: seq<Pair> | UniqueKeys(e) witness []

  /** Position of key k among the items of e. */
  function KeyIndex(e: seq<Pair>, k: string): (r: Option<nat>)
    ensures r.Some? ==> r.value < |e| && e[r.value].0 == k
    ensures r.None? <==> forall i :: 0 <= i < |e| ==> e[i].0 != k
  {
    if e == [] then None
    else if e[|e| - 1].0 == k then Some(|e| - 1)
    else KeyIndex(e[..|e| - 1], k)
  }

  /** `k in e` */
  predicate HasKey(e: seq<Pair>, k: string)
  {
    KeyIndex(e, k).Some?
  }

  /** `e.get(k)` */
  function Get(e: seq<Pair>, k: string): Option<string>
  {
    match KeyIndex(e, k)
    case Some(i) => Some(e[i].1)
    case None => None
  }

  /** `e[k] = v`: overwrites in place when k is present, appends otherwise. */
  function Put(e: Entries, k: string, v: string): (r: Entries)
    ensures HasKey(e, k) ==> |r| == |e|
    ensures !HasKey(e, k) ==> r == e + [(k, v)]
  {
    match KeyIndex(e, k)
    case Some(i) =>
      var r := e[i := (k, v)];
      assert forall k' :: KeyIndex(r, k') == KeyIndex(e, k') by {
        forall k' ensures KeyIndex(r, k') == KeyIndex(e, k') { KeyIndexSameKeys(r, e, k'); }
      }
      r
    case None =>
      var r := e + [(k, v)];
      assert r[..|r| - 1] == e;
      r
  }

  /** After `e[k] = v`, `k` maps to v, every other key maps to what it did, and an
      overwritten key keeps its place in the iteration order. */
  lemma PutSemantics(e: Entries, k: string, v: string)
    ensures Get(Put(e, k, v), k) == Some(v)
    ensures forall k' :: k' != k ==> Get(Put(e, k, v), k') == Get(e, k')
    ensures HasKey(e, k) ==> forall i :: 0 <= i < |e| ==> Put(e, k, v)[i].0 == e[i].0
  {
    var r := Put(e, k, v);
    match KeyIndex(e, k)
    case Some(i) =>
      forall k' ensures KeyIndex(r, k') == KeyIndex(e, k') { KeyIndexSameKeys(r, e, k'); }
    case None =>
      assert r[..|r| - 1] == e;
  }

  /** KeyIndex depends only on the keys. */
  lemma {:induction false} KeyIndexSameKeys(a: seq<Pair>, b: seq<Pair>, k: string)
    requires |a| == |b| && forall i :: 0 <= i < |a| ==> a[i].0 == b[i].0
    ensures KeyIndex(a, k) == KeyIndex(b, k)
  {
    if a != [] && a[|a| - 1].0 != k {
      KeyIndexSameKeys(a[..|a| - 1], b[..|b| - 1], k);
    }
  }

  /** In a dict with unique keys, the position of the i-th key is i. */
  lemma KeyIndexOfItem(e: Entries, i: nat)
    requires i < |e|
    ensures KeyIndex(e, e[i].0) == Some(i)
  {
  }
}
