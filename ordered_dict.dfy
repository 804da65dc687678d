/**
 * A Python dict as the script uses it: assignment d[k] = v updates the
 * value of an existing key where it stands and appends a new key at the
 * end, and iteration follows insertion order.
 */
module OrderedDict {
  import opened Outcomes

  /** Both dicts of the script map strings to strings. */
  type Dict = seq<(string, string)>

  function Keys(d: Dict): (r: seq<string>)
    ensures |r| == |d| && forall i :: 0 <= i < |d| ==> r[i] == d[i].0
  {
    if d == [] then [] else [d[0].0] + Keys(d[1..])
  }

  ghost predicate DistinctKeys(d: Dict) {
    forall i, j :: 0 <= i < j < |d| ==> d[i].0 != d[j].0
  }

  /** d.get(k). */
  function Get(d: Dict, k: string): Option<string> {
    if d == [] then None
    else if d[0].0 == k then Some(d[0].1)
    else Get(d[1..], k)
  }

  /** d.get(k) finds a value exactly for the keys of d. */
  lemma {:induction false} GetKeys(d: Dict, k: string)
    ensures Get(d, k).Some? <==> k in Keys(d)
  {
    if d != [] {
      assert Keys(d) == [d[0].0] + Keys(d[1..]);
      GetKeys(d[1..], k);
    }
  }

  /** d[k] = v. */
  function Put(d: Dict, k: string, v: string): (r: Dict)
    ensures Get(r, k) == Some(v)
    ensures forall k' :: k' != k ==> Get(r, k') == Get(d, k')
  {
    if d == [] then [(k, v)]
    else if d[0].0 == k then
      var r := [(k, v)] + d[1..];
      assert r[1..] == d[1..];
      r
    else
      var rest := Put(d[1..], k, v);
      var r := [d[0]] + rest;
      assert r[1..] == rest;
      r
  }

  /** Assignment keeps an existing key where it stands and appends a new one. */
  lemma {:induction false} PutKeys(d: Dict, k: string, v: string)
    ensures Keys(Put(d, k, v)) == if k in Keys(d) then Keys(d) else Keys(d) + [k]
  {
    if d != [] {
      var r := Put(d, k, v);
      assert Keys(d) == [d[0].0] + Keys(d[1..]);
      assert Keys(r) == [r[0].0] + Keys(r[1..]);
      if d[0].0 == k {
        assert r[1..] == d[1..];
      } else {
        PutKeys(d[1..], k, v);
        assert r[1..] == Put(d[1..], k, v);
      }
    }
  }

  /** Assignment never makes a key appear twice. */
  lemma PutDistinct(d: Dict, k: string, v: string)
    requires DistinctKeys(d)
    ensures DistinctKeys(Put(d, k, v))
  {
    var r := Put(d, k, v);
    var kd, kr := Keys(d), Keys(r);
    PutKeys(d, k, v);
    forall i, j | 0 <= i < j < |r| ensures r[i].0 != r[j].0 {
      assert kr[i] == r[i].0 && kr[j] == r[j].0;
      if j < |d| {
        assert kd[i] == d[i].0 && kd[j] == d[j].0;
      } else {
        assert kr[j] == k && k !in kd;
        assert kr[i] == kd[i];
      }
    }
  }

  /** The dict that assigning every pair of ps, in order, to an empty dict leaves. */
  function FromPairs(ps: seq<(string, string)>): (r: Dict)
    ensures DistinctKeys(r) && |r| <= |ps|
  {
    if |ps| == 0 then []
    else
      var prev := FromPairs(ps[..|ps| - 1]);
      PutDistinct(prev, ps[|ps| - 1].0, ps[|ps| - 1].1);
      PutKeys(prev, ps[|ps| - 1].0, ps[|ps| - 1].1);
      Put(prev, ps[|ps| - 1].0, ps[|ps| - 1].1)
  }

  /** Last write wins: a key holds the value of the last pair assigned to it. */
  lemma {:induction false} FromPairsLastWins(ps: seq<(string, string)>, j: nat)
    requires j < |ps|
    requires forall j' :: j < j' < |ps| ==> ps[j'].0 != ps[j].0
    ensures Get(FromPairs(ps), ps[j].0) == Some(ps[j].1)
  {
    var n := |ps|;
    if j < n - 1 {
      var prefix := ps[..n - 1];
      var last := ps[n - 1];
      assert prefix[j] == ps[j];
      assert forall j' :: j < j' < |prefix| ==> prefix[j'] == ps[j'];
      FromPairsLastWins(prefix, j);
      assert FromPairs(ps) == Put(FromPairs(prefix), last.0, last.1);
      assert last.0 != ps[j].0;
    }
  }

  /** A key that no pair assigns is absent. */
  lemma {:induction false} FromPairsAbsent(ps: seq<(string, string)>, k: string)
    requires forall j :: 0 <= j < |ps| ==> ps[j].0 != k
    ensures Get(FromPairs(ps), k) == None
  {
    if |ps| > 0 {
      FromPairsAbsent(ps[..|ps| - 1], k);
    }
  }

  /** The keys of ks with every repeat after the first dropped. */
  function FirstOccurrences(ks: seq<string>): seq<string> {
    if |ks| == 0 then []
    else
      var prev := FirstOccurrences(ks[..|ks| - 1]);
      if ks[|ks| - 1] in prev then prev else prev + [ks[|ks| - 1]]
  }

  /** Iteration order: the keys come in the order in which they were first assigned. */
  lemma {:induction false} FromPairsKeyOrder(ps: seq<(string, string)>)
    ensures Keys(FromPairs(ps)) == FirstOccurrences(Keys(ps))
  {
    if |ps| > 0 {
      var prefix := ps[..|ps| - 1];
      var last := ps[|ps| - 1];
      var prev := FromPairs(prefix);
      FromPairsKeyOrder(prefix);
      PutKeys(prev, last.0, last.1);
      assert FromPairs(ps) == Put(prev, last.0, last.1);
      var ks := Keys(ps);
      assert ks[..|ks| - 1] == Keys(prefix);
      assert ks[|ks| - 1] == last.0;
    }
  }
}
