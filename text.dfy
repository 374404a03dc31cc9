/** String helpers with the meaning Python's `str` methods have on ASCII text. */
module Text {

  /** `c.lower()` for ASCII letters; every other character is left alone. */
  function Lower(c: char): char {
    if 'A' <= c <= 'Z' then (c as int + 32) as char else c
  }

  /** `s.lower()`, character by character. */
  function LowerStr(s: string): string {
    seq(|s|, i requires 0 <= i < |s| => Lower(s[i]))
  }

  /** `s.lower() == t`, decided one character at a time. */
  predicate LowerEquals(s: string, t: string) {
    |s| == |t| && (s == [] || (Lower(s[0]) == t[0] && LowerEquals(s[1..], t[1..])))
  }

  lemma {:induction false} LowerEqualsMeans(s: string, t: string)
    ensures LowerEquals(s, t) <==> LowerStr(s) == t
  {
    if |s| == |t| && s != [] {
      LowerEqualsMeans(s[1..], t[1..]);
      assert LowerStr(s) == [Lower(s[0])] + LowerStr(s[1..]);
      assert t == [t[0]] + t[1..];
    }
  }

  /** `s.lower() in ts`. */
  predicate LowerIn(s: string, ts: seq<string>) {
    ts != [] && (LowerEquals(s, ts[0]) || LowerIn(s, ts[1..]))
  }

  lemma {:induction false} LowerInMeans(s: string, ts: seq<string>)
    ensures LowerIn(s, ts) <==> LowerStr(s) in ts
  {
    if ts != [] {
      LowerEqualsMeans(s, ts[0]);
      LowerInMeans(s, ts[1..]);
      assert ts == [ts[0]] + ts[1..];
    }
  }

  /** `s.endswith(t)`. */
  predicate EndsWith(s: string, t: string) {
    |t| <= |s| && s[|s| - |t|..] == t
  }

  /** `s.rfind(c)`: the last index of `c` in `s`, or -1. */
  function RFind(s: string, c: char): (i: int)
    ensures -1 <= i < |s|
    ensures i >= 0 ==> s[i] == c
    ensures forall j :: i < j < |s| ==> s[j] != c
  {
    if s == [] then -1
    else if s[|s| - 1] == c then |s| - 1
    else RFind(s[..|s| - 1], c)
  }

  lemma {:induction false} RFindSkipsTail(a: string, b: string, c: char)
    requires c !in b
    ensures RFind(a + b, c) == RFind(a, c)
  {
    if b != [] {
      var b' := b[..|b| - 1];
      assert (a + b)[..|a + b| - 1] == a + b';
      RFindSkipsTail(a, b', c);
    } else {
      assert a + b == a;
    }
  }

  function DigitChar(d: nat): char
    requires d < 10
  {
    "0123456789"[d]
  }

  /** `str(n)` for a non-negative integer. */
  function NatStr(n: nat): (s: string)
    ensures 1 <= |s|
    decreases n
  {
    if n < 10 then [DigitChar(n)] else NatStr(n / 10) + [DigitChar(n % 10)]
  }

  /** Python's `format(n, '03d')`: zero-padded on the left to width three. */
  function Pad3(s: string): (r: string)
    ensures |r| == if |s| >= 3 then |s| else 3
  {
    if |s| >= 3 then s else seq(3 - |s|, _ => '0') + s
  }

  lemma DivTenTwice(n: nat)
    ensures n / 10 / 10 == n / 100
  {
    var q, r := n / 100, n % 100;
    assert n == 100 * q + r && r < 100;
    assert n / 10 == 10 * q + r / 10;
  }

  /** The decimal text of `n` (below 1000) is its three digits, zero-padded. */
  lemma ThreeDigits(n: nat)
    requires n < 1000
    ensures Pad3(NatStr(n)) == [DigitChar(n / 100), DigitChar(n / 10 % 10), DigitChar(n % 10)]
  {
    if n < 10 {
      assert NatStr(n) == [DigitChar(n)];
      assert n / 100 == 0 && n / 10 == 0;
    } else if n < 100 {
      assert NatStr(n / 10) == [DigitChar(n / 10)];
      assert n / 100 == 0 && n / 10 % 10 == n / 10;
    } else {
      DivTenTwice(n);
      var m := n / 10;
      assert 10 <= m < 100;
      assert NatStr(m / 10) == [DigitChar(n / 100)];
      assert NatStr(m) == [DigitChar(n / 100), DigitChar(m % 10)];
    }
  }
}
