/** RedisHelper.cpp: turning an array reply into a vector or a map of strings. */
module RedisResults {
  import opened MachineInts
  import opened Resp

  /** GetString into a fresh string: only bulk strings give their bytes. */
  function StringOf(r: Reply): Bytes {
    if r.Bulk? then r.data else []
  }

  /** Appends one string for each element, and nothing when the reply is not an array. */
  method ParseStringArray(reply: Reply, vals: seq<Bytes>) returns (ok: bool, vals': seq<Bytes>)
    ensures ok <==> reply.Array?
    ensures !ok ==> vals' == vals
    ensures ok ==> |vals'| == |vals| + |reply.items| && vals <= vals'
    ensures ok ==> forall i :: 0 <= i < |reply.items| ==>
              vals'[|vals| + i] == match reply.items[i] case Bulk(data) => data case _ => []
  {
    vals' := vals;
    if !reply.Array? {
      return false, vals';
    }
    var i := 0;
    while i < |reply.items|
      invariant 0 <= i <= |reply.items| && |vals'| == |vals| + i && vals <= vals'
      invariant forall j :: 0 <= j < i ==> vals'[|vals| + j] == StringOf(reply.items[j])
    {
      vals' := vals' + [StringOf(reply.items[i])];
      i := i + 1;
    }
    ok := true;
  }

  /** `elements - 1` on an unsigned 64-bit count. */
  function LastIndex(elements: nat): nat {
    (elements - 1) % TWO_64
  }

  lemma LastIndexIs(elements: nat)
    requires elements < TWO_63
    ensures LastIndex(elements) == if elements == 0 then TWO_64 - 1 else elements - 1
  {
  }

  /** The value the map must hold for `key`: what was there, else the value after its first
      occurrence at an even index below `end`. */
  ghost predicate Holds(m: map<Bytes, Bytes>, vals: map<Bytes, Bytes>, items: seq<Reply>, end: nat)
    requires end <= |items|
  {
    && (forall k :: k in vals ==> k in m && m[k] == vals[k])
    && (forall k :: k in m && k !in vals ==>
          exists i: nat :: IsFirst(items, k, i) && i < end && m[k] == StringOf(items[i + 1]))
    && (forall i :: 0 <= i < end && i % 2 == 0 ==> StringOf(items[i]) in m)
  }

  /** `i` is the first even index whose element reads as `key`, and a value follows it. */
  ghost predicate IsFirst(items: seq<Reply>, key: Bytes, i: nat) {
    && i + 1 < |items| && i % 2 == 0 && StringOf(items[i]) == key
    && forall j :: 0 <= j < i && j % 2 == 0 ==> StringOf(items[j]) != key
  }

  /** Pairs up the elements; the first value given for a key wins, and a last element without a
      partner is ignored. On an empty array the unsigned bound wraps and the loop reads past the
      end: exactly then `overrun`. */
  method ParseStringMap(reply: Reply, vals: map<Bytes, Bytes>)
    returns (ok: bool, vals': map<Bytes, Bytes>, overrun: bool)
    requires reply.Array? ==> |reply.items| < TWO_63
    ensures overrun <==> reply.Array? && |reply.items| == 0
    ensures !overrun ==> (ok <==> reply.Array?)
    ensures !reply.Array? ==> vals' == vals
    ensures reply.Array? && !overrun ==> Holds(vals', vals, reply.items, |reply.items| / 2 * 2)
    ensures reply.Array? && !overrun ==> forall k :: k in vals ==> k in vals' && vals'[k] == vals[k]
    ensures reply.Array? && reply.items != [] && NewPairs(reply.items, vals) ==> ExactlyAdded(vals', vals, reply.items)
  {
    vals', overrun := vals, false;
    if !reply.Array? {
      return false, vals', false;
    }
    var items := reply.items;
    var bound := LastIndex(|items|);
    LastIndexIs(|items|);
    NothingAdded(vals, items);
    hide *;
    var i := 0;
    ghost var pairs := 0;
    while i < bound
      invariant i == 2 * pairs && 0 <= i <= |items|
      invariant Holds(vals', vals, items, i)
      decreases bound - i
    {
      if i + 1 >= |items| {
        return true, vals', true;
      }
      var key, val := StringOf(items[i]), StringOf(items[i + 1]);
      PairAdded(vals', vals, items, pairs);
      vals' := if key in vals' then vals' else vals'[key := val];
      i, pairs := i + 2, pairs + 1;
    }
    ok := true;
    EvenEnd(pairs, |items|);
    assert i == |items| / 2 * 2;
    HeldBefore(vals', vals, items, i);
    if NewPairs(items, vals) {
      PairsAreAdded(vals', vals, items);
    }
  }

  /** Pairs of bulk strings, with different keys that are not in the map yet. */
  ghost predicate NewPairs(items: seq<Reply>, vals: map<Bytes, Bytes>) {
    && |items| % 2 == 0 && (forall i :: 0 <= i < |items| ==> items[i].Bulk?)
    && (forall i :: 0 <= i < |items| && i % 2 == 0 ==> items[i].data !in vals)
    && (forall i, j :: 0 <= i < j < |items| && i % 2 == 0 && j % 2 == 0 ==> items[i].data != items[j].data)
  }

  /** The map now holds what it held and these pairs, nothing else. */
  ghost predicate ExactlyAdded(m: map<Bytes, Bytes>, vals: map<Bytes, Bytes>, items: seq<Reply>)
    requires |items| % 2 == 0 && forall i :: 0 <= i < |items| ==> items[i].Bulk?
  {
    && (forall k :: k in vals ==> k in m && m[k] == vals[k])
    && (forall i :: 0 <= i < |items| && i % 2 == 0 ==> items[i].data in m && m[items[i].data] == items[i + 1].data)
    && (forall k :: k in m && k !in vals ==> exists i :: 0 <= i < |items| && i % 2 == 0 && items[i].data == k)
  }

  lemma HeldBefore(m: map<Bytes, Bytes>, vals: map<Bytes, Bytes>, items: seq<Reply>, end: nat)
    requires end <= |items| && Holds(m, vals, items, end)
    ensures forall k :: k in vals ==> k in m && m[k] == vals[k]
  {
  }

  lemma PairsAreAdded(m: map<Bytes, Bytes>, vals: map<Bytes, Bytes>, items: seq<Reply>)
    requires NewPairs(items, vals) && Holds(m, vals, items, |items|)
    ensures ExactlyAdded(m, vals, items)
  {
    forall i | 0 <= i < |items| && i % 2 == 0
      ensures items[i].data in m && m[items[i].data] == items[i + 1].data
    {
      var key := items[i].data;
      assert StringOf(items[i]) == key && key in m;
      var j: nat :| IsFirst(items, key, j) && j < |items| && m[key] == StringOf(items[j + 1]);
      assert items[j].data == key;
      assert j == i;
    }
    forall k | k in m && k !in vals
      ensures exists i :: 0 <= i < |items| && i % 2 == 0 && items[i].data == k
    {
      var j: nat :| IsFirst(items, k, j) && j < |items| && m[k] == StringOf(items[j + 1]);
      assert items[j].data == k;
    }
  }

  lemma NothingAdded(vals: map<Bytes, Bytes>, items: seq<Reply>)
    ensures Holds(vals, vals, items, 0)
  {
  }

  lemma EvenEnd(pairs: int, n: int)
    requires n - 1 <= 2 * pairs <= n
    ensures 2 * pairs == n / 2 * 2
  {
  }

  lemma PairAdded(m: map<Bytes, Bytes>, vals: map<Bytes, Bytes>, items: seq<Reply>, pairs: nat)
    requires 2 * pairs + 1 < |items| && Holds(m, vals, items, 2 * pairs)
    ensures var i := 2 * pairs;
            var key := StringOf(items[i]);
            Holds(if key in m then m else m[key := StringOf(items[i + 1])], vals, items, i + 2)
  {
    var i := 2 * pairs;
    var key := StringOf(items[i]);
    if key !in m {
      assert IsFirst(items, key, i);
    }
  }
}
