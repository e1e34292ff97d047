/** Ledger records: Python dicts from field name to coerced value, which
    remember the order their keys were first inserted in. */
module Records {
  import opened Results
  import opened Strings
  import opened Numbers

  /** A field after best-effort coercion: a number, or the text as read. */
  datatype Value = Num(n: Float) | Text(t: string)

  /** The entries of an insertion-ordered dict, oldest key first. */
  type Record = seq<(string, Value)>

  function Keys(r: Record): (ks: seq<string>)
    ensures |ks| == |r|
    ensures forall i :: 0 <= i < |r| ==> ks[i] == r[i].0
  {
    if |r| == 0 then [] else [r[0].0] + Keys(r[1..])
  }

  /** No key occurs twice, as in every Python dict. */
  predicate WellFormed(r: Record) {
    Distinct(Keys(r))
  }

  /** No element occurs twice. */
  predicate Distinct(xs: seq<string>) {
    forall i, j :: 0 <= i < j < |xs| ==> xs[i] != xs[j]
  }

  lemma {:induction false} DistinctAppend(xs: seq<string>, x: string)
    ensures Distinct(xs) && x !in xs ==> Distinct(xs + [x])
  {
  }

  /** `record.get(key)`: the value stored under `k`, if any. */
  function Get(r: Record, k: string): Option<Value> {
    if |r| == 0 then None
    else if r[0].0 == k then Some(r[0].1)
    else Get(r[1..], k)
  }

  /** A lookup finds something exactly when the key is present. */
  lemma {:induction false} GetPresent(r: Record, k: string)
    ensures Get(r, k).Some? <==> k in Keys(r)
  {
    if |r| > 0 {
      assert Keys(r) == [r[0].0] + Keys(r[1..]);
      GetPresent(r[1..], k);
    }
  }

  /** In a well-formed record every entry is what a lookup of its key finds. */
  lemma {:induction false} GetEntry(r: Record, i: nat)
    requires WellFormed(r) && i < |r|
    ensures Get(r, r[i].0) == Some(r[i].1)
  {
    if i > 0 {
      assert Keys(r[1..]) == Keys(r)[1..];
      GetEntry(r[1..], i - 1);
    }
  }

  /** `record[key] = value`, entry by entry. */
  function Set(r: Record, k: string, v: Value): Record {
    if |r| == 0 then [(k, v)]
    else if r[0].0 == k then [(k, v)] + r[1..]
    else [r[0]] + Set(r[1..], k, v)
  }

  /** `record[key] = value`: a present key keeps its place and takes the
      new value, an absent key is added last; every other key keeps its
      value, and no key ends up twice. */
  lemma {:induction false} SetSemantics(r: Record, k: string, v: Value)
    ensures k in Keys(r) ==> Keys(Set(r, k, v)) == Keys(r)
    ensures k !in Keys(r) ==> Keys(Set(r, k, v)) == Keys(r) + [k]
    ensures Get(Set(r, k, v), k) == Some(v)
    ensures forall k' :: k' != k ==> Get(Set(r, k, v), k') == Get(r, k')
    ensures WellFormed(r) ==> WellFormed(Set(r, k, v))
  {
    SetKeys(r, k, v);
    SetGet(r, k, v);
    forall k' | k' != k
      ensures Get(Set(r, k, v), k') == Get(r, k')
    {
      SetOther(r, k, v, k');
    }
    DistinctAppend(Keys(r), k);
  }

  lemma {:induction false} SetKeys(r: Record, k: string, v: Value)
    ensures k in Keys(r) ==> Keys(Set(r, k, v)) == Keys(r)
    ensures k !in Keys(r) ==> Keys(Set(r, k, v)) == Keys(r) + [k]
  {
    if |r| > 0 {
      assert Keys(r) == [r[0].0] + Keys(r[1..]);
      var s := Set(r, k, v);
      if r[0].0 == k {
        assert s[1..] == r[1..];
        assert Keys(s) == [k] + Keys(r[1..]);
      } else {
        SetKeys(r[1..], k, v);
        var t := Set(r[1..], k, v);
        assert s[1..] == t;
        assert Keys(s) == [r[0].0] + Keys(t);
      }
    }
  }

  lemma {:induction false} SetGet(r: Record, k: string, v: Value)
    ensures Get(Set(r, k, v), k) == Some(v)
  {
    if |r| > 0 && r[0].0 != k {
      SetGet(r[1..], k, v);
      assert Set(r, k, v)[1..] == Set(r[1..], k, v);
    }
  }

  lemma {:induction false} SetOther(r: Record, k: string, v: Value, k': string)
    requires k' != k
    ensures Get(Set(r, k, v), k') == Get(r, k')
  {
    if |r| > 0 {
      var s := Set(r, k, v);
      if r[0].0 == k {
        assert s[1..] == r[1..];
      } else if r[0].0 != k' {
        SetOther(r[1..], k, v, k');
        assert s[1..] == Set(r[1..], k, v);
      }
    }
  }

  /** Assigning a key the record does not hold appends one entry. */
  lemma {:induction false} SetAppends(r: Record, k: string, v: Value)
    requires k !in Keys(r)
    ensures Set(r, k, v) == r + [(k, v)]
  {
    if |r| > 0 {
      assert Keys(r)[0] == r[0].0;
      assert Keys(r[1..]) == Keys(r)[1..];
      SetAppends(r[1..], k, v);
      assert [r[0]] + (r[1..] + [(k, v)]) == r + [(k, v)];
    }
  }

  /** No position of `headers` after `i` and before `m` repeats `headers[i]`:
      position `i` is the last assignment of that key among the first `m`. */
  predicate LastBefore(headers: seq<string>, i: nat, m: nat) {
    forall j :: i < j < m && j < |headers| ==> headers[j] != headers[i]
  }

  /** The dict built by assigning `headers[i] = values[i]` for `i < m`,
      in order. */
  function ZipPrefix(values: seq<Value>, headers: seq<string>, m: nat): Record
    requires m <= |values| && m <= |headers|
  {
    if m == 0 then []
    else Set(ZipPrefix(values, headers, m - 1), headers[m - 1], values[m - 1])
  }

  /** What the assignments leave: exactly the assigned headers as keys, each
      once and in order of first assignment, each holding its last assigned
      value. */
  lemma {:induction false} ZipPrefixContents(values: seq<Value>, headers: seq<string>, m: nat)
    requires m <= |values| && m <= |headers|
    ensures WellFormed(ZipPrefix(values, headers, m))
    ensures forall k :: k in Keys(ZipPrefix(values, headers, m)) <==> k in headers[..m]
    ensures InHeaderOrder(Keys(ZipPrefix(values, headers, m)), headers)
    ensures forall i :: 0 <= i < m && LastBefore(headers, i, m) ==> Get(ZipPrefix(values, headers, m), headers[i]) == Some(values[i])
  {
    if m > 0 {
      var prev := ZipPrefix(values, headers, m - 1);
      ZipPrefixContents(values, headers, m - 1);
      var r := ZipPrefix(values, headers, m);
      assert r == Set(prev, headers[m - 1], values[m - 1]);
      ZipStep(values, headers, m, prev, r);
    }
  }

  lemma {:induction false} ZipStep(values: seq<Value>, headers: seq<string>, m: nat, prev: Record, r: Record)
    requires 0 < m <= |values| && m <= |headers|
    requires WellFormed(prev)
    requires forall k :: k in Keys(prev) <==> k in headers[..m - 1]
    requires InHeaderOrder(Keys(prev), headers)
    requires forall i :: 0 <= i < m - 1 && LastBefore(headers, i, m - 1) ==> Get(prev, headers[i]) == Some(values[i])
    requires r == Set(prev, headers[m - 1], values[m - 1])
    ensures WellFormed(r)
    ensures forall k :: k in Keys(r) <==> k in headers[..m]
    ensures InHeaderOrder(Keys(r), headers)
    ensures forall i :: 0 <= i < m && LastBefore(headers, i, m) ==> Get(r, headers[i]) == Some(values[i])
  {
    SetSemantics(prev, headers[m - 1], values[m - 1]);
    ZipStepKeys(headers, m, Keys(prev), Keys(r));
    ZipStepOrder(headers, m, Keys(prev), Keys(r));
    ZipStepValues(values, headers, m, prev, r);
  }

  /** One more assignment adds its header to the keys, if new. */
  lemma {:induction false} ZipStepKeys(headers: seq<string>, m: nat, before: seq<string>, after: seq<string>)
    requires 0 < m <= |headers|
    requires forall k :: k in before <==> k in headers[..m - 1]
    requires headers[m - 1] in before ==> after == before
    requires headers[m - 1] !in before ==> after == before + [headers[m - 1]]
    ensures forall k :: k in after <==> k in headers[..m]
  {
    assert headers[..m] == headers[..m - 1] + [headers[m - 1]];
  }

  /** The keys `ks` occur in `headers` in this order, by first occurrence. */
  predicate InHeaderOrder(ks: seq<string>, headers: seq<string>) {
    forall i, j :: 0 <= i < j < |ks| ==> IndexOf(headers, ks[i]) < IndexOf(headers, ks[j])
  }

  /** A newly added key comes after every earlier one in `headers` too. */
  lemma {:induction false} ZipStepOrder(headers: seq<string>, m: nat, before: seq<string>, after: seq<string>)
    requires 0 < m <= |headers|
    requires forall k :: k in before <==> k in headers[..m - 1]
    requires InHeaderOrder(before, headers)
    requires headers[m - 1] in before ==> after == before
    requires headers[m - 1] !in before ==> after == before + [headers[m - 1]]
    ensures InHeaderOrder(after, headers)
  {
    var k := headers[m - 1];
    if k !in before {
      IndexOfFirst(headers, k, m - 1);
      forall i | 0 <= i < |before|
        ensures IndexOf(headers, before[i]) < m - 1
      {
        assert before[i] in before;
        IndexOfBefore(headers, before[i], m - 1);
      }
    }
  }

  /** The last assignment to each header is the value it keeps. */
  lemma {:induction false} ZipStepValues(values: seq<Value>, headers: seq<string>, m: nat, prev: Record, r: Record)
    requires 0 < m <= |values| && m <= |headers|
    requires forall i :: 0 <= i < m - 1 && LastBefore(headers, i, m - 1) ==> Get(prev, headers[i]) == Some(values[i])
    requires Get(r, headers[m - 1]) == Some(values[m - 1])
    requires forall k :: k != headers[m - 1] ==> Get(r, k) == Get(prev, k)
    ensures forall i :: 0 <= i < m && LastBefore(headers, i, m) ==> Get(r, headers[i]) == Some(values[i])
  {
    forall i | 0 <= i < m && LastBefore(headers, i, m)
      ensures Get(r, headers[i]) == Some(values[i])
    {
      if i < m - 1 {
        assert LastBefore(headers, i, m - 1);
        assert headers[m - 1] != headers[i];
      }
    }
  }

  lemma {:induction false} IndexOfBefore<T>(s: seq<T>, x: T, m: nat)
    requires m <= |s| && x in s[..m]
    ensures IndexOf(s, x) < m
  {
    var j :| 0 <= j < m && s[..m][j] == x;
    assert s[j] == x;
    IndexOfLeast(s, x, j);
  }

  lemma {:induction false} IndexOfLeast<T>(s: seq<T>, x: T, j: nat)
    requires j < |s| && s[j] == x
    ensures IndexOf(s, x) <= j
  {
    if j > 0 && s[0] != x {
      IndexOfLeast(s[1..], x, j - 1);
    }
  }

  /** Python's `create_item_dict(values, headers)`: `zip` pairs the i-th
      value with the i-th header up to the shorter of the two; each pair is
      assigned in turn, so a repeated header keeps its first position and
      its last value. */
  function CreateItemDict(values: seq<Value>, headers: seq<string>): (r: Record)
    ensures WellFormed(r)
    ensures forall k :: k in Keys(r) <==> k in headers[..Min(|values|, |headers|)]
    ensures InHeaderOrder(Keys(r), headers)
    ensures forall i :: 0 <= i < Min(|values|, |headers|) && LastBefore(headers, i, Min(|values|, |headers|))
                        ==> Get(r, headers[i]) == Some(values[i])
  {
    ZipPrefixContents(values, headers, Min(|values|, |headers|));
    ZipPrefix(values, headers, Min(|values|, |headers|))
  }

  function Min(a: nat, b: nat): nat {
    if a <= b then a else b
  }

  /** The zipped pairs `(headers[i], values[i])` for `i < m`. */
  function Pairs(values: seq<Value>, headers: seq<string>, m: nat): (r: Record)
    requires m <= |values| && m <= |headers|
    ensures |r| == m
  {
    if m == 0 then [] else Pairs(values, headers, m - 1) + [(headers[m - 1], values[m - 1])]
  }

  lemma {:induction false} PairsAt(values: seq<Value>, headers: seq<string>, m: nat, i: nat)
    requires m <= |values| && m <= |headers| && i < m
    ensures Pairs(values, headers, m)[i] == (headers[i], values[i])
  {
    if i < m - 1 {
      PairsAt(values, headers, m - 1, i);
    }
  }

  lemma {:induction false} PairsKeys(values: seq<Value>, headers: seq<string>, m: nat)
    requires m <= |values| && m <= |headers|
    ensures Keys(Pairs(values, headers, m)) == headers[..m]
  {
    if m > 0 {
      PairsKeys(values, headers, m - 1);
      var ks := Keys(Pairs(values, headers, m));
      assert ks[..m - 1] == Keys(Pairs(values, headers, m - 1));
      assert ks == ks[..m - 1] + [headers[m - 1]];
      assert headers[..m] == headers[..m - 1] + [headers[m - 1]];
    }
  }

  lemma {:induction false} DistinctPrefix(headers: seq<string>, m: nat)
    requires 0 < m <= |headers| && Distinct(headers[..m])
    ensures Distinct(headers[..m - 1])
    ensures headers[m - 1] !in headers[..m - 1]
  {
    var hs := headers[..m];
    assert headers[..m - 1] == hs[..m - 1];
    assert headers[m - 1] == hs[m - 1];
  }

  /** With distinct headers, the dict is the zipped pairs themselves, in
      header order. */
  lemma {:induction false} ZipDistinct(values: seq<Value>, headers: seq<string>, m: nat)
    requires m <= |values| && m <= |headers|
    requires Distinct(headers[..m])
    ensures ZipPrefix(values, headers, m) == Pairs(values, headers, m)
  {
    if m > 0 {
      var prev := Pairs(values, headers, m - 1);
      DistinctPrefix(headers, m);
      ZipDistinct(values, headers, m - 1);
      PairsKeys(values, headers, m - 1);
      SetAppends(prev, headers[m - 1], values[m - 1]);
    }
  }
}
