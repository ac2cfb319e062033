/** Python dictionaries from `str` to `str`, which remember insertion order: a list of
    entries whose keys are distinct, in the order the keys were first inserted. */
module Dicts {
  import opened Wrappers

  type Dict = seq<(string, string)>

  function Keys(d: Dict): seq<string>
  {
    seq(|d|, i requires 0 <= i < |d| => d[i].0)
  }

  predicate DistinctKeys(d: Dict)
  {
    forall i, j :: 0 <= i < j < |d| ==> d[i].0 != d[j].0
  }

  /** `d.get(k)`: `None` exactly when no entry has key `k`. */
  function Get(d: Dict, k: string): (r: Option<string>)
    ensures r.None? <==> k !in Keys(d)
    decreases |d|
  {
    if |d| == 0 then None
    else if d[0].0 == k then
      assert Keys(d)[0] == k;
      Some(d[0].1)
    else
      assert Keys(d) == [d[0].0] + Keys(d[1..]);
      Get(d[1..], k)
  }

  /** `d.get(k)` is the value of the first entry for `k`, the only one when keys are distinct. */
  lemma {:induction false} GetFirst(d: Dict, k: string, i: nat)
    requires i < |d| && d[i].0 == k
    requires forall j :: 0 <= j < i ==> d[j].0 != k
    ensures Get(d, k) == Some(d[i].1)
    decreases |d|
  {
    if i > 0 {
      assert d[1..][i - 1] == d[i];
      GetFirst(d[1..], k, i - 1);
    }
  }

  /** `d.get(k, default)` */
  function GetOr(d: Dict, k: string, default: string): string
  {
    match Get(d, k)
    case Some(v) => v
    case None => default
  }

  /** `d[k] = v`: an existing key keeps its position and takes the new value; a new key
      goes to the end. */
  function Put(d: Dict, k: string, v: string): Dict
    decreases |d|
  {
    if |d| == 0 then [(k, v)]
    else if d[0].0 == k then [(k, v)] + d[1..]
    else [d[0]] + Put(d[1..], k, v)
  }

  lemma {:induction false} PutKeys(d: Dict, k: string, v: string)
    ensures Keys(Put(d, k, v)) == if k in Keys(d) then Keys(d) else Keys(d) + [k]
    decreases |d|
  {
    if |d| > 0 {
      assert Keys(d) == [d[0].0] + Keys(d[1..]);
      if d[0].0 == k {
        assert Keys(d)[0] == k;
        assert Keys(Put(d, k, v)) == [k] + Keys(d[1..]);
      } else {
        PutKeys(d[1..], k, v);
        assert Keys(Put(d, k, v)) == [d[0].0] + Keys(Put(d[1..], k, v));
      }
    }
  }

  lemma {:induction false} PutGet(d: Dict, k: string, v: string)
    ensures Get(Put(d, k, v), k) == Some(v)
    ensures forall k' :: k' != k ==> Get(Put(d, k, v), k') == Get(d, k')
    decreases |d|
  {
    if |d| > 0 && d[0].0 != k {
      PutGet(d[1..], k, v);
      var r := Put(d, k, v);
      assert r[0] == d[0] && r[1..] == Put(d[1..], k, v);
    }
  }

  lemma PutDistinct(d: Dict, k: string, v: string)
    requires DistinctKeys(d)
    ensures DistinctKeys(Put(d, k, v))
  {
    PutKeys(d, k, v);
    var r := Put(d, k, v);
    assert forall i :: 0 <= i < |r| ==> r[i].0 == Keys(r)[i];
    assert forall i :: 0 <= i < |d| ==> d[i].0 == Keys(d)[i];
  }

  /** `dict(pairs)` and the dict comprehensions over pairs: each pair is stored in turn. */
  function FromPairs(ps: seq<(string, string)>): Dict
    decreases |ps|
  {
    if |ps| == 0 then []
    else
      var (k, v) := ps[|ps| - 1];
      Put(FromPairs(ps[..|ps| - 1]), k, v)
  }

  /** The dict has distinct keys, exactly the keys of the pairs. */
  lemma {:induction false} FromPairsSpec(ps: seq<(string, string)>)
    ensures DistinctKeys(FromPairs(ps))
    ensures forall k :: k in Keys(FromPairs(ps)) <==> k in Keys(ps)
    decreases |ps|
  {
    if |ps| > 0 {
      var init := ps[..|ps| - 1];
      var (k, v) := ps[|ps| - 1];
      assert Keys(ps) == Keys(init) + [k];
      FromPairsSpec(init);
      PutKeys(FromPairs(init), k, v);
      PutDistinct(FromPairs(init), k, v);
    }
  }

  /** Storing a key the dict does not hold appends it at the end. */
  lemma {:induction false} PutNew(d: Dict, k: string, v: string)
    requires k !in Keys(d)
    ensures Put(d, k, v) == d + [(k, v)]
    decreases |d|
  {
    if |d| > 0 {
      assert Keys(d) == [d[0].0] + Keys(d[1..]);
      PutNew(d[1..], k, v);
      assert d == [d[0]] + d[1..];
    }
  }

  /** Pairs whose keys are already distinct make a dict with the same entries in the same
      order: building a dict from them keeps their order. */
  lemma {:induction false} FromDistinctPairs(ps: seq<(string, string)>)
    requires DistinctKeys(ps)
    ensures FromPairs(ps) == ps
    decreases |ps|
  {
    if |ps| > 0 {
      var n := |ps| - 1;
      var init := ps[..n];
      assert DistinctKeys(init);
      FromDistinctPairs(init);
      assert ps[n].0 !in Keys(init) by {
        assert forall i :: 0 <= i < |init| ==> Keys(init)[i] == ps[i].0;
      }
      PutNew(init, ps[n].0, ps[n].1);
      assert ps == init + [ps[n]];
    }
  }

  /** A later pair for the same key overwrites an earlier one. */
  lemma {:induction false} FromPairsLastWins(ps: seq<(string, string)>, i: nat)
    requires i < |ps|
    requires forall j :: i < j < |ps| ==> ps[j].0 != ps[i].0
    ensures Get(FromPairs(ps), ps[i].0) == Some(ps[i].1)
    decreases |ps|
  {
    var init := ps[..|ps| - 1];
    PutGet(FromPairs(init), ps[|ps| - 1].0, ps[|ps| - 1].1);
    if i < |ps| - 1 {
      FromPairsLastWins(init, i);
    }
  }

  /** A key no pair carries is not in the dict. */
  lemma FromPairsAbsent(ps: seq<(string, string)>, k: string)
    requires k !in Keys(ps)
    ensures Get(FromPairs(ps), k) == None
  {
    FromPairsSpec(ps);
  }

  /** The entries whose key is (`inside`) or is not (`!inside`) among `keys`,
      in their original order. */
  function Select(d: Dict, keys: set<string>, inside: bool): Dict
    decreases |d|
  {
    if |d| == 0 then []
    else
      var rest := Select(d[1..], keys, inside);
      if (d[0].0 in keys) == inside then [d[0]] + rest else rest
  }

  /** The selection holds exactly the entries on that side, and keeps keys distinct. */
  lemma {:induction false} SelectSpec(d: Dict, keys: set<string>, inside: bool)
    ensures forall e :: e in Select(d, keys, inside) <==> e in d && (e.0 in keys) == inside
    ensures forall k :: k in Keys(Select(d, keys, inside)) ==> k in Keys(d)
    ensures DistinctKeys(d) ==> DistinctKeys(Select(d, keys, inside))
    decreases |d|
  {
    if |d| > 0 {
      var rest := Select(d[1..], keys, inside);
      SelectSpec(d[1..], keys, inside);
      assert Keys(d) == [d[0].0] + Keys(d[1..]);
      assert forall e :: e in d <==> e == d[0] || e in d[1..];
      if (d[0].0 in keys) == inside {
        assert Keys([d[0]] + rest) == [d[0].0] + Keys(rest);
      }
    }
  }

  /** The selection keeps the dict's order: selecting from two runs of entries gives the
      first run's selection followed by the second's. */
  lemma {:induction false} SelectAppend(a: Dict, b: Dict, keys: set<string>, inside: bool)
    ensures Select(a + b, keys, inside) == Select(a, keys, inside) + Select(b, keys, inside)
    decreases |a|
  {
    if |a| == 0 {
      assert a + b == b;
    } else {
      var x, rest := a[0], a[1..];
      assert a == [x] + rest;
      assert a + b == [x] + (rest + b);
      calc {
        Select(a + b, keys, inside);
        { SelectCons(x, rest + b, keys, inside); }
        SelectOne(x, keys, inside) + Select(rest + b, keys, inside);
        { SelectAppend(rest, b, keys, inside); }
        SelectOne(x, keys, inside) + (Select(rest, keys, inside) + Select(b, keys, inside));
        { SelectCons(x, rest, keys, inside); }
        Select(a, keys, inside) + Select(b, keys, inside);
      }
    }
  }

  /** One entry is selected, once, exactly when its key is on the chosen side. */
  function SelectOne(e: (string, string), keys: set<string>, inside: bool): Dict
  {
    if (e.0 in keys) == inside then [e] else []
  }

  /** An entry in front is selected ahead of the rest's selection. */
  lemma SelectCons(e: (string, string), d: Dict, keys: set<string>, inside: bool)
    ensures Select([e] + d, keys, inside) == SelectOne(e, keys, inside) + Select(d, keys, inside)
  {
    assert ([e] + d)[0] == e && ([e] + d)[1..] == d;
  }

  /** `zip(a, b)`: as many pairs as the shorter list has elements. */
  function Zip(a: seq<string>, b: seq<string>): seq<(string, string)>
    decreases |a|
  {
    if |a| == 0 || |b| == 0 then [] else [(a[0], b[0])] + Zip(a[1..], b[1..])
  }

  /** As many pairs as the shorter list, the `i`-th holding the `i`-th elements of both. */
  lemma {:induction false} ZipSpec(a: seq<string>, b: seq<string>)
    ensures |Zip(a, b)| == if |a| <= |b| then |a| else |b|
    ensures forall i :: 0 <= i < |Zip(a, b)| ==> Zip(a, b)[i] == (a[i], b[i])
    decreases |a|
  {
    if |a| > 0 && |b| > 0 {
      ZipSpec(a[1..], b[1..]);
    }
  }

  /** `s[1:]`, which is empty for an empty list. */
  function Tail<T>(s: seq<T>): seq<T>
  {
    if |s| == 0 then [] else s[1..]
  }
}
