/**
 Basic types shared by the whole model of the duplicate file remover:
 Go's fixed-width integers as subset types, byte strings, paths, and the
 error and outcome datatypes that stand in for Go's `error` returns and
 for `panic`.
 */
module Common {

  /** Go's `uint8`. */
  type u8 = x: int | 0 <= x < 0x100

  /** Go's `uint64`. */
  type u64 = x: int | 0 <= x < 0x1_0000_0000_0000_0000

  /** Go's `int64`. */
  type i64 = x: int | -0x8000_0000_0000_0000 <= x < 0x8000_0000_0000_0000

  /** A length that cannot be zero, such as a buffer size. */
  type Positive = n: nat | n > 0 witness 1

  type byte = bv8

  type Bytes = seq<byte>

  /** File and directory paths are plain strings; they are compared, never parsed. */
  type Path = string

  /** `x` reduced modulo 2^64, as a Go `uint64` addition wraps around. */
  function Wrap64(x: int): (r: u64)
    ensures x >= 0 && x < 0x1_0000_0000_0000_0000 ==> r == x
  {
    x % 0x1_0000_0000_0000_0000
  }

  /** Wrapping after every addition is wrapping once at the end. */
  lemma WrapAdd(a: nat, b: nat)
    ensures Wrap64(Wrap64(a) + b) == Wrap64(a + b)
  {
  }

  /** The conversion `int64(x)` of a `uint64`: two's complement reinterpretation. */
  function ToInt64(x: u64): (r: i64)
    ensures x < 0x8000_0000_0000_0000 ==> r == x
    ensures (r as int - x) % 0x1_0000_0000_0000_0000 == 0
  {
    if x < 0x8000_0000_0000_0000 then x else x - 0x1_0000_0000_0000_0000
  }

  /** Go's unary minus on `int64`; the most negative value is its own negation. */
  function Neg64(x: i64): (r: i64)
    ensures x != -0x8000_0000_0000_0000 ==> r == -x
  {
    if x == -0x8000_0000_0000_0000 then x else -x
  }

  function Min(a: int, b: int): int {
    if a <= b then a else b
  }

  function Max(a: int, b: int): int {
    if a <= b then b else a
  }

  /** A buffer of `n` zero bytes, as `make([]byte, n)` allocates it. */
  function Zeros(n: nat): (r: Bytes)
    ensures |r| == n
    ensures forall i :: 0 <= i < n ==> r[i] == 0
  {
    seq(n, _ => 0)
  }

  /** The lower-case hexadecimal digit for a value below 16. */
  function HexDigit(n: bv8): char
    requires n < 16
  {
    "0123456789abcdef"[n as int]
  }

  /** `fmt.Sprintf("%x", b)`: two lower-case hex digits per byte, high half first. */
  function Hex(b: Bytes): (s: string)
    ensures |s| == 2 * |b|
  {
    if |b| == 0 then ""
    else
      var last := b[|b| - 1];
      Hex(b[..|b| - 1]) + [HexDigit(last >> 4), HexDigit(last & 0xF)]
  }

  lemma HexDigitInjective(m: bv8, n: bv8)
    requires m < 16 && n < 16
    ensures HexDigit(m) == HexDigit(n) ==> m == n
  {
  }

  /** A byte is determined by its two printed digits. */
  lemma HexPairInjective(x: byte, y: byte)
    requires HexDigit(x >> 4) == HexDigit(y >> 4) && HexDigit(x & 0xF) == HexDigit(y & 0xF)
    ensures x == y
  {
    HexDigitInjective(x >> 4, y >> 4);
    HexDigitInjective(x & 0xF, y & 0xF);
    assert x == ((x >> 4) << 4) | (x & 0xF);
    assert y == ((y >> 4) << 4) | (y & 0xF);
  }

  lemma SplitLast<T>(a: seq<T>)
    requires |a| > 0
    ensures a == a[..|a| - 1] + [a[|a| - 1]]
  {
  }

  /** Different digests never print the same: grouping by the printed form is grouping by the digest. */
  lemma {:induction false} HexInjective(a: Bytes, b: Bytes)
    ensures Hex(a) == Hex(b) ==> a == b
    decreases |a|
  {
    if Hex(a) == Hex(b) && |a| > 0 {
      var x, y := a[|a| - 1], b[|b| - 1];
      var ha, hb := Hex(a), Hex(b);
      assert ha[|ha| - 2] == HexDigit(x >> 4) && ha[|ha| - 1] == HexDigit(x & 0xF);
      assert hb[|hb| - 2] == HexDigit(y >> 4) && hb[|hb| - 1] == HexDigit(y & 0xF);
      HexPairInjective(x, y);
      assert Hex(a[..|a| - 1]) == ha[..|ha| - 2];
      assert Hex(b[..|b| - 1]) == hb[..|hb| - 2];
      HexInjective(a[..|a| - 1], b[..|b| - 1]);
      SplitLast(a);
      SplitLast(b);
    }
  }

  /**
   main.go's `fileList`: file size to the paths listed with that size
   (Go `map[uint64][]string`).
   */
  type SizeMap = map<u64, seq<Path>>

  /** The errors the modelled code can observe from the operating system. */
  datatype Error =
    | PermissionDenied
    | NotExist
    | IoFailure
    | EndOfFile
    | InvalidArgument

  datatype Option<T> = None | Some(value: T)

  /** A Go `(value, error)` pair where exactly one side is meaningful. */
  datatype Result<T> = Ok(value: T) | Err(error: Error)

  /** The result of a step that may end the process with `panic`. */
  datatype Outcome<T> = Done(value: T) | Panic

  /** The sum of a sequence of naturals. */
  function Sum(xs: seq<nat>): nat {
    if |xs| == 0 then 0 else Sum(xs[..|xs| - 1]) + xs[|xs| - 1]
  }

  /** Concatenation of a sequence of sequences. */
  function Concat<T>(xss: seq<seq<T>>): seq<T> {
    if |xss| == 0 then [] else Concat(xss[..|xss| - 1]) + xss[|xss| - 1]
  }

  /** `sub` is `s` with some elements left out and the rest in their original order. */
  predicate IsSubsequence<T(==)>(sub: seq<T>, s: seq<T>)
    decreases |s|
  {
    if |sub| == 0 then true
    else if |s| == 0 then false
    else if sub[|sub| - 1] == s[|s| - 1] then IsSubsequence(sub[..|sub| - 1], s[..|s| - 1])
    else IsSubsequence(sub, s[..|s| - 1])
  }

  /** Leaving out the last element of a subsequence leaves a subsequence. */
  lemma {:induction false} SubsequenceDropLast<T>(a: seq<T>, c: seq<T>)
    requires |a| > 0 && IsSubsequence(a, c)
    ensures IsSubsequence(a[..|a| - 1], c)
    decreases |c|
  {
    var a' := a[..|a| - 1];
    if |a'| > 0 {
      assert |c| > 0;
      var c' := c[..|c| - 1];
      if a[|a| - 1] == c[|c| - 1] {
        assert IsSubsequence(a', c');
      } else {
        SubsequenceDropLast(a, c');
      }
      if a'[|a'| - 1] == c[|c| - 1] {
        SubsequenceDropLast(a', c');
      }
    }
  }

  lemma {:induction false} SubsequenceTransitive<T>(a: seq<T>, b: seq<T>, c: seq<T>)
    requires IsSubsequence(a, b) && IsSubsequence(b, c)
    ensures IsSubsequence(a, c)
    decreases |c|
  {
    if |a| > 0 && |c| > 0 {
      var a', b', c' := a[..|a| - 1], b[..|b| - 1], c[..|c| - 1];
      if b[|b| - 1] == c[|c| - 1] {
        if a[|a| - 1] == b[|b| - 1] {
          SubsequenceTransitive(a', b', c');
        } else {
          SubsequenceTransitive(a, b', c');
        }
      } else {
        SubsequenceTransitive(a, b, c');
        if a[|a| - 1] == c[|c| - 1] {
          SubsequenceDropLast(a, c');
        }
      }
    }
  }

  /** `order` lists every element of `xs` exactly once. */
  predicate Enumerates<T(==)>(order: seq<T>, xs: set<T>) {
    && (forall i, j :: 0 <= i < j < |order| ==> order[i] != order[j])
    && (forall i :: 0 <= i < |order| ==> order[i] in xs)
    && (forall x :: x in xs ==> x in order)
  }
}
