/** Fixed-width integers, little-endian byte strings and the sequence operations
    shared by every component. */
module Base {

  type byte = x: int | 0 <= x < 0x100
  type u32 = x: int | 0 <= x < 0x1_0000_0000
  type u64 = x: int | 0 <= x < 0x1_0000_0000_0000_0000
  type i32 = x: int | -0x8000_0000 <= x < 0x8000_0000

  datatype Option<+T> = None | Some(value: T)

  datatype ResultCode =
    | RESULT_SUCCESS
    | RESULT_GENERAL_ERROR
    | RESULT_BAD_PARAM
    | RESULT_BAD_COPY
    | RESULT_NO_MEMORY
    | RESULT_NEED_INIT
    | RESULT_NOT_FOUND
    | RESULT_REACH_LIMIT
    | RESULT_BAD_READ
    | RESULT_BAD_WRITE
    | RESULT_UNKNOWN
    | RESULT_BAD_MATCH
    | RESULT_BAD_SIGN
    | RESULT_TOKEN_TIMEOUT
    | RESULT_VERIFY_TOKEN_FAIL
    | RESULT_EXCEED_LIMIT

  // ----- little-endian encoding ------------------------------------------------------------------

  function Pow256(n: nat): (p: nat)
    ensures p >= 1
  {
    if n == 0 then 1 else 256 * Pow256(n - 1)
  }

  /** The n low-order bytes of v, least significant first. */
  function LeBytes(v: nat, n: nat): (b: seq<byte>)
    ensures |b| == n
    decreases n, v
  {
    if n == 0 then [] else [v % 256] + LeBytes(v / 256, n - 1)
  }

  function LeValue(b: seq<byte>): (v: nat)
    ensures v < Pow256(|b|)
  {
    if |b| == 0 then 0 else b[0] + 256 * LeValue(b[1..])
  }

  lemma {:induction false} LeValueOfBytes(v: nat, n: nat)
    requires v < Pow256(n)
    ensures LeValue(LeBytes(v, n)) == v
  {
    if n == 0 {
    } else {
      LeValueOfBytes(v / 256, n - 1);
      assert LeBytes(v, n)[1..] == LeBytes(v / 256, n - 1);
    }
  }

  lemma {:induction false} LeBytesOfValue(b: seq<byte>)
    ensures LeBytes(LeValue(b), |b|) == b
  {
    if |b| > 0 {
      var v, rest := LeValue(b), LeValue(b[1..]);
      LeBytesOfValue(b[1..]);
      assert v == b[0] + 256 * rest && v % 256 == b[0] && v / 256 == rest;
      assert LeBytes(v, |b|) == [v % 256] + LeBytes(v / 256, |b| - 1);
      assert b == [b[0]] + b[1..];
    }
  }

  lemma Pow256Widths()
    ensures Pow256(4) == 0x1_0000_0000
    ensures Pow256(8) == 0x1_0000_0000_0000_0000
  {
    assert Pow256(1) == 0x100;
    assert Pow256(2) == 0x1_0000;
    assert Pow256(3) == 0x100_0000;
    assert Pow256(4) == 0x1_0000_0000;
    assert Pow256(5) == 0x100_0000_0000;
    assert Pow256(6) == 0x1_0000_0000_0000;
    assert Pow256(7) == 0x100_0000_0000_0000;
  }

  /** Byte k is the digit of 256 to the k. */
  lemma {:induction false} LeBytesAt(v: nat, n: nat, k: nat)
    requires k < n
    ensures LeBytes(v, n)[k] == v / Pow256(k) % 256
  {
    if k > 0 {
      LeBytesAt(v / 256, n - 1, k - 1);
      DivideTwice(v, 256, Pow256(k - 1));
    }
  }

  lemma DivideTwice(v: nat, a: nat, b: nat)
    requires a > 0 && b > 0
    ensures a * b > 0 && v / a / b == v / (a * b)
  {
    var q, r := v / a / b, v / a % b;
    assert v == (q * b + r) * a + v % a;
    assert v == q * (a * b) + (r * a + v % a);
    assert r * a + v % a < a * b by {
      assert r * a <= (b - 1) * a;
    }
    Quotient(v, a * b, q, r * a + v % a);
  }

  lemma TimesMonotone(a: int, b: int, d: nat)
    requires a <= b
    ensures a * d <= b * d
  {
    assert (b - a) * d >= 0;
  }

  lemma Quotient(v: nat, d: nat, q: nat, r: nat)
    requires d > 0 && v == q * d + r && r < d
    ensures v / d == q
  {
    var x := v / d;
    if x > q {
      TimesMonotone(q + 1, x, d);
    } else if x < q {
      TimesMonotone(x + 1, q, d);
    }
  }

  function U32Bytes(v: u32): (b: seq<byte>)
    ensures |b| == 4
    ensures U32Of(b) == v
  {
    Pow256Widths();
    LeValueOfBytes(v, 4);
    LeBytes(v, 4)
  }

  function U32Of(b: seq<byte>): u32
    requires |b| == 4
  {
    Pow256Widths();
    LeValue(b)
  }

  function U64Bytes(v: u64): (b: seq<byte>)
    ensures |b| == 8
    ensures U64Of(b) == v
  {
    Pow256Widths();
    LeValueOfBytes(v, 8);
    LeBytes(v, 8)
  }

  function U64Of(b: seq<byte>): u64
    requires |b| == 8
  {
    Pow256Widths();
    LeValue(b)
  }

  lemma U32BytesOf(b: seq<byte>)
    requires |b| == 4
    ensures U32Bytes(U32Of(b)) == b
  {
    LeBytesOfValue(b);
  }

  /** The 32-bit pattern of v read as a signed integer, and back. */
  function I32OfU32(v: u32): i32
  {
    if v < 0x8000_0000 then v else v - 0x1_0000_0000
  }

  function U32OfI32(v: i32): u32
  {
    if v >= 0 then v else v + 0x1_0000_0000
  }

  // ----- sequences -------------------------------------------------------------------------------

  function Reverse<T>(s: seq<T>): (r: seq<T>)
    ensures |r| == |s|
  {
    if |s| == 0 then [] else Reverse(s[1..]) + [s[0]]
  }

  lemma {:induction false} ReverseAppend<T>(s: seq<T>, t: seq<T>)
    ensures Reverse(s + t) == Reverse(t) + Reverse(s)
  {
    if |s| == 0 {
      assert s + t == t;
    } else {
      ReverseAppend(s[1..], t);
      assert (s + t)[1..] == s[1..] + t;
      assert (Reverse(t) + Reverse(s[1..])) + [s[0]] == Reverse(t) + (Reverse(s[1..]) + [s[0]]);
    }
  }

  lemma {:induction false} ReverseTwice<T>(s: seq<T>)
    ensures Reverse(Reverse(s)) == s
  {
    if |s| == 0 {
    } else {
      ReverseAppend(Reverse(s[1..]), [s[0]]);
      ReverseTwice(s[1..]);
      assert Reverse([s[0]]) == [s[0]];
      assert s == [s[0]] + s[1..];
    }
  }

  lemma {:induction false} ReverseIn<T>(s: seq<T>, x: T)
    ensures x in Reverse(s) <==> x in s
  {
    if |s| == 0 {
    } else {
      ReverseIn(s[1..], x);
      assert s == [s[0]] + s[1..];
    }
  }

  lemma {:induction false} ReverseAt<T>(s: seq<T>, k: nat)
    requires k < |s|
    ensures Reverse(s)[k] == s[|s| - 1 - k]
  {
    if k < |s| - 1 {
      ReverseAt(s[1..], k);
    }
  }

  /** s without its first element satisfying p. */
  function RemoveFirst<T>(s: seq<T>, p: T -> bool): (r: seq<T>)
  {
    if |s| == 0 then [] else if p(s[0]) then s[1..] else [s[0]] + RemoveFirst(s[1..], p)
  }

  /** The index of the first element satisfying p, or the length of s. */
  function FirstIndex<T>(s: seq<T>, p: T -> bool): (i: nat)
    ensures i <= |s|
    ensures i < |s| ==> p(s[i])
    ensures forall j :: 0 <= j < i ==> !p(s[j])
  {
    if |s| == 0 then 0 else if p(s[0]) then 0 else 1 + FirstIndex(s[1..], p)
  }

  lemma FirstIndexUnique<T>(s: seq<T>, p: T -> bool, i: nat)
    requires i <= |s|
    requires i < |s| ==> p(s[i])
    requires forall j :: 0 <= j < i ==> !p(s[j])
    ensures FirstIndex(s, p) == i
  {}

  lemma {:induction false} RemoveFirstAt<T>(s: seq<T>, p: T -> bool)
    ensures var i := FirstIndex(s, p);
            RemoveFirst(s, p) == if i < |s| then s[..i] + s[i + 1..] else s
  {
    if |s| == 0 {
    } else if p(s[0]) {
      assert s[..0] + s[1..] == s[1..];
    } else {
      var t := s[1..];
      RemoveFirstAt(t, p);
      var i := FirstIndex(t, p);
      assert FirstIndex(s, p) == i + 1;
      if i < |t| {
        RemoveAtShift(s, i);
      } else {
        assert s == [s[0]] + t;
      }
    }
  }

  lemma RemoveAtShift<T>(s: seq<T>, i: nat)
    requires i + 1 < |s|
    ensures [s[0]] + (s[1..][..i] + s[1..][i + 1..]) == s[..i + 1] + s[i + 2..]
  {
    assert s[..i + 1] == [s[0]] + s[1..][..i];
    assert s[1..][i + 1..] == s[i + 2..];
  }

  ghost predicate Pairwise<T>(s: seq<T>, apart: (T, T) -> bool) {
    forall i, j :: 0 <= i < j < |s| ==> apart(s[i], s[j])
  }

  /** Removing an element keeps the others apart and brings in no new one. */
  lemma RemoveKeepsPairwise<T>(s: seq<T>, p: T -> bool, apart: (T, T) -> bool)
    requires Pairwise(s, apart)
    ensures Pairwise(RemoveFirst(s, p), apart)
    ensures forall k :: 0 <= k < |RemoveFirst(s, p)| ==> RemoveFirst(s, p)[k] in s
  {
    RemoveFirstAt(s, p);
    var i, r := FirstIndex(s, p), RemoveFirst(s, p);
    forall k | 0 <= k < |r| ensures r[k] == s[if k < i then k else k + 1] {}
  }

  /** Where at most one element satisfies p, RemoveFirst takes exactly that one. */
  lemma {:induction false} RemoveOnly<T>(s: seq<T>, p: T -> bool, x: T)
    requires forall i, j :: 0 <= i < j < |s| ==> !(p(s[i]) && p(s[j]))
    ensures x in RemoveFirst(s, p) <==> x in s && !p(x)
  {
    if |s| > 0 {
      assert x in s <==> x == s[0] || x in s[1..];
      if p(s[0]) {
        forall k | 0 <= k < |s[1..]| ensures !p(s[1..][k]) {
          assert !p(s[k + 1]);
        }
      } else {
        RemoveOnly(s[1..], p, x);
      }
    }
  }

  function Occurrences<T>(s: seq<T>, p: T -> bool): nat {
    if |s| == 0 then 0 else (if p(s[0]) then 1 else 0) + Occurrences(s[1..], p)
  }

  lemma OccurrencesCons<T>(x: T, s: seq<T>, p: T -> bool)
    ensures Occurrences([x] + s, p) == (if p(x) then 1 else 0) + Occurrences(s, p)
  {
    assert ([x] + s)[1..] == s;
  }

  /** Removing the first match of q takes at most one occurrence of p, and exactly one where q is p and matches. */
  lemma {:induction false} OccurrencesRemove<T>(s: seq<T>, q: T -> bool, p: T -> bool)
    ensures Occurrences(RemoveFirst(s, q), p) <= Occurrences(s, p)
    ensures q == p && FirstIndex(s, q) < |s| ==> Occurrences(RemoveFirst(s, q), p) + 1 == Occurrences(s, p)
  {
    if |s| > 0 && !q(s[0]) {
      OccurrencesRemove(s[1..], q, p);
      OccurrencesCons(s[0], RemoveFirst(s[1..], q), p);
    }
  }

  /** Walks a list from its head to the first match, as every lookup loop of the C code does. */
  method FindFirst<T>(s: seq<T>, p: T -> bool) returns (i: nat)
    ensures i == FirstIndex(s, p)
  {
    i := 0;
    while i < |s| && !p(s[i])
      invariant i <= |s|
      invariant forall j :: 0 <= j < i ==> !p(s[j])
    {
      i := i + 1;
    }
    FirstIndexUnique(s, p, i);
  }

  // ----- concatenated records --------------------------------------------------------------------

  /** getSize of a list of n elements; no LinkedList grows beyond the 32-bit counter. */
  function Count(n: nat): u32 {
    if n <= 0xFFFF_FFFF then n else 0xFFFF_FFFF
  }

  /** The encodings of the elements, one after the other. */
  function Records<T>(list: seq<T>, encode: T -> seq<byte>): (b: seq<byte>)
  {
    if |list| == 0 then [] else encode(list[0]) + Records(list[1..], encode)
  }

  lemma {:induction false} RecordsSnoc<T>(list: seq<T>, x: T, encode: T -> seq<byte>)
    ensures Records(list + [x], encode) == Records(list, encode) + encode(x)
  {
    if |list| == 0 {
      assert list + [x] == [x];
      assert Records([x], encode) == encode(x) + Records([], encode);
    } else {
      assert (list + [x])[1..] == list[1..] + [x];
      RecordsSnoc(list[1..], x, encode);
    }
  }

  lemma {:induction false} RecordsLength<T>(list: seq<T>, encode: T -> seq<byte>, size: nat)
    requires forall x :: x in list ==> |encode(x)| == size
    ensures |Records(list, encode)| == size * |list|
  {
    if |list| == 0 {
    } else {
      var n := |list| - 1;
      assert |encode(list[0])| == size;
      RecordsLength(list[1..], encode, size);
      assert size * (n + 1) == size * n + size;
    }
  }

  lemma {:induction false} RecordsSplit<T>(list: seq<T>, i: nat, encode: T -> seq<byte>)
    requires i <= |list|
    ensures Records(list, encode) == Records(list[..i], encode) + Records(list[i..], encode)
  {
    if i == 0 {
      assert list[..0] == [] && list[0..] == list;
    } else {
      RecordsSplit(list[1..], i - 1, encode);
      assert list[1..][..i - 1] == list[..i][1..];
      assert list[1..][i - 1..] == list[i..];
    }
  }

  lemma RecordsStep<T>(list: seq<T>, i: nat, encode: T -> seq<byte>)
    requires i < |list|
    ensures Records(list[..i + 1], encode) == Records(list[..i], encode) + encode(list[i])
    ensures |Records(list[..i], encode)| + |encode(list[i])| <= |Records(list, encode)|
  {
    assert list[..i + 1] == list[..i] + [list[i]];
    RecordsSnoc(list[..i], list[i], encode);
    RecordsSplit(list, i + 1, encode);
  }

  // ----- random identifiers ----------------------------------------------------------------------

  const MAX_DUPLICATE_CHECK := 100

  /** What up to MAX_DUPLICATE_CHECK calls of SecureRandom would return; None is a failed call. */
  type Draws = d: seq<Option<u64>> | |d| == MAX_DUPLICATE_CHECK witness seq(MAX_DUPLICATE_CHECK, _ => None)

  /** The first drawn value outside taken, unless a call fails before it. */
  function FirstFresh(draws: seq<Option<u64>>, taken: set<u64>): (r: Option<u64>)
    ensures r.Some? ==> r.value !in taken && r in draws
  {
    if |draws| == 0 || draws[0].None? then
      None
    else if draws[0].value !in taken then
      draws[0]
    else
      FirstFresh(draws[1..], taken)
  }

  /** The draws before position i were all made and all collided. */
  predicate AllTaken(draws: seq<Option<u64>>, taken: set<u64>, i: nat)
    requires i <= |draws|
  {
    forall j :: 0 <= j < i ==> draws[j].Some? && draws[j].value in taken
  }

  /** Generation fails exactly when every draw up to a failed call, or up to the last one, collides. */
  lemma {:induction false} FirstFreshFails(draws: seq<Option<u64>>, taken: set<u64>)
    ensures FirstFresh(draws, taken).None? <==>
            exists i :: 0 <= i <= |draws| && AllTaken(draws, taken, i) && (i == |draws| || draws[i].None?)
  {
    if |draws| == 0 || draws[0].None? {
      assert AllTaken(draws, taken, 0);
    } else if draws[0].value in taken {
      var rest := draws[1..];
      FirstFreshFails(rest, taken);
      if i :| 0 <= i <= |rest| && AllTaken(rest, taken, i) && (i == |rest| || rest[i].None?) {
        assert AllTaken(draws, taken, i + 1) by {
          forall j | 0 <= j < i + 1 ensures draws[j].Some? && draws[j].value in taken {
            if j > 0 {
              assert draws[j] == rest[j - 1];
            }
          }
        }
      }
      if i :| 0 <= i <= |draws| && AllTaken(draws, taken, i) && (i == |draws| || draws[i].None?) {
        assert i > 0;
        assert AllTaken(rest, taken, i - 1) by {
          forall j | 0 <= j < i - 1 ensures rest[j].Some? && rest[j].value in taken {
            assert rest[j] == draws[j + 1];
          }
        }
      }
    } else {
      assert !AllTaken(draws, taken, |draws|);
    }
  }

  method GenerateDeduplicateUint64(draws: Draws, taken: set<u64>) returns (r: Option<u64>)
    ensures r == FirstFresh(draws, taken)
  {
    var i := 0;
    assert draws[0..] == draws;
    while i < MAX_DUPLICATE_CHECK
      invariant 0 <= i <= |draws|
      invariant FirstFresh(draws, taken) == FirstFresh(draws[i..], taken)
    {
      if draws[i].None? {
        return None;
      }
      if draws[i].value !in taken {
        return draws[i];
      }
      assert draws[i..][1..] == draws[i + 1..];
      i := i + 1;
    }
    return None;
  }
}
