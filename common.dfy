/**
 * Small shared vocabulary: optional values, results with an error, integer
 * ranges and duplicate-free sequences of slot numbers.
 */
module Common {

  datatype Option<+T> = None | Some(value: T)

  datatype Result<+T, +E> = Ok(value: T) | Err(error: E)

  /** The integers lo, lo + 1, ..., hi - 1 (what `std::iota` writes). */
  function Range(lo: nat, hi: nat): (r: seq<nat>)
    ensures |r| == if lo <= hi then hi - lo else 0
    ensures forall i :: 0 <= i < |r| ==> r[i] == lo + i
  {
    if lo >= hi then [] else seq(hi - lo, i => lo + i)
  }

  /** n copies of x. */
  function Repeat(x: nat, n: nat): (r: seq<nat>)
    ensures |r| == n && forall i :: 0 <= i < n ==> r[i] == x
  {
    seq(n, _ => x)
  }

  /** Range grows at its upper end one value at a time. */
  lemma RangeSnoc(lo: nat, hi: nat)
    requires lo <= hi
    ensures Range(lo, hi + 1) == Range(lo, hi) + [hi]
  {
    assert forall i :: 0 <= i < hi + 1 - lo ==> Range(lo, hi + 1)[i] == (Range(lo, hi) + [hi])[i];
  }

  /** Consecutive ranges concatenate. */
  lemma {:induction false} RangeAppend(lo: nat, mid: nat, hi: nat)
    requires lo <= mid <= hi
    ensures Range(lo, mid) + Range(mid, hi) == Range(lo, hi)
  {
    assert forall i :: 0 <= i < hi - lo ==> (Range(lo, mid) + Range(mid, hi))[i] == Range(lo, hi)[i];
  }

  /** A non-empty sequence is its front followed by its last element. */
  lemma SnocParts(s: seq<nat>)
    requires s != []
    ensures s[..|s| - 1] + [s[|s| - 1]] == s
  {
  }

  /** Dropping the head commutes with appending at the end. */
  lemma TailSnoc(s: seq<nat>, x: nat)
    requires s != []
    ensures (s + [x])[1..] == s[1..] + [x]
  {
  }

  /** Dropping the head of [x] + s gives s back. */
  lemma TailCons(x: nat, s: seq<nat>)
    ensures ([x] + s)[1..] == s && [] + s == s
  {
  }

  /** Updating one element and then dropping the last commutes (or the update vanishes). */
  lemma UpdateFront<T>(s: seq<T>, o: nat, v: T)
    requires o < |s|
    ensures o < |s| - 1 ==> s[o := v][..|s| - 1] == s[..|s| - 1][o := v]
    ensures o == |s| - 1 ==> s[o := v][..|s| - 1] == s[..|s| - 1]
  {
  }

  lemma MulSucc(a: nat, b: nat)
    ensures (a + 1) * b == a * b + b
  {
  }

  lemma MulAdd(a: nat, b: nat, c: nat)
    ensures (a + b) * c == a * c + b * c
  {
  }

  lemma MulMono(a: nat, b: nat, c: nat)
    requires a <= b
    ensures a * c <= b * c
  {
  }

  /** No value occurs twice. */
  ghost predicate Distinct(s: seq<nat>) {
    forall i, j :: 0 <= i < j < |s| ==> s[i] != s[j]
  }

  /** A duplicate-free sequence of values below n has at most n elements. */
  lemma {:induction false} DistinctBounded(s: seq<nat>, n: nat)
    requires Distinct(s)
    requires forall i :: 0 <= i < |s| ==> s[i] < n
    ensures |s| <= n
    decreases |s|
  {
    if s != [] {
      var v := s[|s| - 1];
      var t := s[..|s| - 1];
      // close the gap left by v so that the rest fits below n - 1
      var t' := seq(|t|, i requires 0 <= i < |t| => if t[i] > v then t[i] - 1 else t[i]);
      forall i, j | 0 <= i < j < |t'| ensures t'[i] != t'[j] {
        assert t[i] != t[j] && t[i] != v && t[j] != v;
      }
      forall i | 0 <= i < |t'| ensures t'[i] < n - 1 {
        assert t[i] != v;
      }
      DistinctBounded(t', n - 1);
    }
  }

  /** Appending duplicate-free values that are new keeps a sequence duplicate-free. */
  lemma DistinctAppend(p: seq<nat>, cs: seq<nat>)
    requires Distinct(p) && Distinct(cs)
    requires forall i :: 0 <= i < |cs| ==> cs[i] !in p
    ensures Distinct(p + cs)
  {
    var r := p + cs;
    forall i, j | 0 <= i < j < |r| ensures r[i] != r[j] {
      if j >= |p| && i < |p| {
        assert r[j] == cs[j - |p|] && r[i] == p[i];
      } else if i >= |p| {
        assert r[i] == cs[i - |p|] && r[j] == cs[j - |p|];
      }
    }
  }

  /** `s` with every occurrence of `v` erased (std::list::erase of v's node). */
  function Without(s: seq<nat>, v: nat): (r: seq<nat>)
    ensures forall x :: x in r <==> x in s && x != v
    ensures |r| <= |s|
  {
    if s == [] then []
    else (if s[0] == v then [] else [s[0]]) + Without(s[1..], v)
  }

  /** Erasing a value that does not occur changes nothing. */
  lemma {:induction false} WithoutAbsent(s: seq<nat>, v: nat)
    requires v !in s
    ensures Without(s, v) == s
  {
    if s != [] {
      WithoutAbsent(s[1..], v);
      assert s == [s[0]] + s[1..];
    }
  }

  /** Erasing the head of a duplicate-free sequence leaves its tail. */
  lemma WithoutHead(s: seq<nat>)
    requires Distinct(s) && s != []
    ensures Without(s, s[0]) == s[1..]
  {
    assert s[0] !in s[1..];
    WithoutAbsent(s[1..], s[0]);
    TailCons(s[0], s[1..]);
  }

  /** Erasing a value that occurs once shortens the sequence by exactly one. */
  lemma {:induction false} WithoutDistinct(s: seq<nat>, v: nat)
    requires Distinct(s)
    ensures Distinct(Without(s, v))
    ensures v in s ==> |Without(s, v)| == |s| - 1
    ensures v !in s ==> Without(s, v) == s
  {
    if s != [] {
      assert Distinct(s[1..]);
      WithoutDistinct(s[1..], v);
      var r := Without(s[1..], v);
      assert s == [s[0]] + s[1..];
      if s[0] == v {
        assert v !in s[1..];
      } else {
        assert Without(s, v) == [s[0]] + r;
        assert s[0] !in r;
      }
    }
  }

  /** The multiset {0, 1, ..., n - 1}. */
  ghost function Slots(n: nat): multiset<nat>
  {
    if n == 0 then multiset{} else Slots(n - 1) + multiset{n - 1}
  }

  /** Slots(n) holds each value below n exactly once, and nothing else. */
  lemma {:induction false} SlotsOnce(n: nat)
    ensures forall x: nat :: Slots(n)[x] == if x < n then 1 else 0
  {
    if n > 0 {
      SlotsOnce(n - 1);
      forall x: nat ensures Slots(n)[x] == if x < n then 1 else 0 {
        assert Slots(n)[x] == Slots(n - 1)[x] + multiset{n - 1}[x];
      }
    }
  }

  /** std::iota's range holds each value below n exactly once, and nothing else. */
  lemma {:induction false} RangeCount(n: nat)
    ensures forall x: nat :: multiset(Range(0, n))[x] == if x < n then 1 else 0
  {
    if n > 0 {
      RangeCount(n - 1);
      RangeSnoc(0, n - 1);
      var last: multiset<nat> := multiset{n - 1};
      assert multiset(Range(0, n)) == multiset(Range(0, n - 1)) + last;
    }
  }
}
