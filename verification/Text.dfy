/** The Rust text primitives the harness is written with: `trim`, integer
    formatting and `rsplit`. */
module Text {

  datatype Option<+T> = None | Some(value: T)

  /** The Unicode White_Space property, which `str::trim` strips. */
  predicate IsWhite(c: char) {
    var n := c as int;
    9 <= n <= 13 || n == 0x20 || n == 0x85 || n == 0xA0 || n == 0x1680
    || 0x2000 <= n <= 0x200A || n == 0x2028 || n == 0x2029 || n == 0x202F
    || n == 0x205F || n == 0x3000
  }

  function TrimStart(s: string): (r: string)
    ensures |r| <= |s| && (r == "" || !IsWhite(r[0]))
  {
    if s != "" && IsWhite(s[0]) then TrimStart(s[1..]) else s
  }

  function TrimEnd(s: string): (r: string)
    ensures |r| <= |s| && (r == "" || !IsWhite(r[|r| - 1]))
    ensures r != "" ==> r[0] == s[0]
  {
    if s != "" && IsWhite(s[|s| - 1]) then TrimEnd(s[..|s| - 1]) else s
  }

  function Trim(s: string): (r: string)
    ensures r == "" || (!IsWhite(r[0]) && !IsWhite(r[|r| - 1]))
    ensures |r| <= |s|
  {
    TrimEnd(TrimStart(s))
  }

  /** Trimming cuts white space, and only white space, off the two ends. */
  lemma {:induction false} TrimMeans(s: string) returns (i: nat, j: nat)
    ensures i <= j <= |s| && Trim(s) == s[i..j]
    ensures forall k | 0 <= k < i || j <= k < |s| :: IsWhite(s[k])
    ensures i < j ==> !IsWhite(s[i]) && !IsWhite(s[j - 1])
  {
    i := StartMeans(s);
    var n := EndMeans(TrimStart(s));
    j := i + n;
  }

  lemma {:induction false} StartMeans(s: string) returns (i: nat)
    ensures i <= |s| && TrimStart(s) == s[i..] && forall k | 0 <= k < i :: IsWhite(s[k])
  {
    if s != "" && IsWhite(s[0]) {
      var n := StartMeans(s[1..]);
      i := n + 1;
    } else {
      i := 0;
    }
  }

  lemma {:induction false} EndMeans(s: string) returns (j: nat)
    ensures j <= |s| && TrimEnd(s) == s[..j] && forall k | j <= k < |s| :: IsWhite(s[k])
  {
    if s != "" && IsWhite(s[|s| - 1]) {
      j := EndMeans(s[..|s| - 1]);
    } else {
      j := |s|;
    }
  }

  /** A string is its own trim exactly when neither end is white space. */
  lemma {:induction false} TrimFixed(s: string)
    ensures Trim(s) == s <==> s == "" || (!IsWhite(s[0]) && !IsWhite(s[|s| - 1]))
  {
  }

  lemma {:induction false} TrimIdempotent(s: string)
    ensures Trim(Trim(s)) == Trim(s)
  {
    TrimFixed(Trim(s));
  }

  function Digit(d: nat): (c: char)
    requires d < 10
  {
    (48 + d) as char
  }

  predicate IsDigit(c: char) { '0' <= c <= '9' }

  /** `format!("{n}")` for a non-negative integer. */
  function Decimal(n: nat): (s: string)
    ensures s != "" && forall i | 0 <= i < |s| :: IsDigit(s[i])
    ensures n > 0 ==> s[0] != '0'
  {
    if n < 10 then [Digit(n)] else Decimal(n / 10) + [Digit(n % 10)]
  }

  /** `format!("{n:02}")`. */
  function Pad2(n: nat): (s: string)
    ensures |s| >= 2 && forall i | 0 <= i < |s| :: IsDigit(s[i])
  {
    if n < 10 then "0" + Decimal(n)
    else
      assert |Decimal(n / 10)| >= 1;
      Decimal(n)
  }

  lemma {:induction false} DecimalInjective(a: nat, b: nat)
    requires Decimal(a) == Decimal(b)
    ensures a == b
  {
    var s, t := Decimal(a), Decimal(b);
    assert s[|s| - 1] == Digit(a % 10) && t[|t| - 1] == Digit(b % 10);
    assert Digit(a % 10) as int == Digit(b % 10) as int;
    if a >= 10 {
      assert s[..|s| - 1] == Decimal(a / 10);
      if b >= 10 {
        assert t[..|t| - 1] == Decimal(b / 10);
        DecimalInjective(a / 10, b / 10);
      }
    }
  }

  /** The two-digit rendering is injective: no padded number is another number. */
  lemma {:induction false} Pad2Injective(a: nat, b: nat)
    requires Pad2(a) == Pad2(b)
    ensures a == b
  {
    if a < 10 && b < 10 {
      assert Decimal(a) == Pad2(a)[1..] == Pad2(b)[1..] == Decimal(b);
      DecimalInjective(a, b);
    } else if a >= 10 && b >= 10 {
      DecimalInjective(a, b);
    }
  }

  /** The number that a string of digits says. */
  ghost function Reading(s: string): int {
    if s == "" then 0 else 10 * Reading(s[..|s| - 1]) + (s[|s| - 1] as int - '0' as int)
  }

  /** Both renderings read back as the number; the padded one has no more digits than it needs, but two. */
  lemma {:induction false} NumbersRead(n: nat)
    ensures Reading(Decimal(n)) == n && Reading(Pad2(n)) == n
    ensures |Decimal(n)| == 1 <==> n < 10
    ensures Pad2(n) == if n < 10 then ['0', ('0' as int + n) as char] else Decimal(n)
  {
    DecimalReads(n);
    if n < 10 {
      assert Pad2(n)[..1] == "0" && "0"[..0] == "" && Reading("0") == 0;
    }
  }

  lemma {:induction false} DecimalReads(n: nat)
    ensures Reading(Decimal(n)) == n
  {
    if n < 10 {
      assert [Digit(n)][..0] == "";
    } else {
      DecimalReads(n / 10);
      assert Decimal(n)[..|Decimal(n)| - 1] == Decimal(n / 10);
    }
  }

  /** `s.rsplit('-').next()`: the text after the last dash, or all of it. */
  function AfterLastDash(s: string): (r: string)
    ensures |r| <= |s|
  {
    if s == "" || s[|s| - 1] == '-' then ""
    else AfterLastDash(s[..|s| - 1]) + [s[|s| - 1]]
  }

  /** Appending a dash and a dash-free segment makes that segment the last one. */
  lemma {:induction false} AfterLastDashOf(s: string, segment: string)
    requires '-' !in segment
    ensures AfterLastDash(s + "-" + segment) == segment
    decreases |segment|
  {
    var t := s + "-" + segment;
    if segment == "" {
      assert t[|t| - 1] == '-';
    } else {
      var front := segment[..|segment| - 1];
      assert t[..|t| - 1] == s + "-" + front;
      AfterLastDashOf(s, front);
      assert t[|t| - 1] == segment[|segment| - 1];
      assert segment == front + [segment[|segment| - 1]];
    }
  }

  /** A string without a dash is its own last segment. */
  lemma {:induction false} NoDash(s: string)
    requires '-' !in s
    ensures AfterLastDash(s) == s
  {
    if s != "" { NoDash(s[..|s| - 1]); }
  }

  predicate NoWhite(s: string) {
    forall k | 0 <= k < |s| :: !IsWhite(s[k])
  }

  lemma {:induction false} NoWhiteIsTrimmed(s: string)
    requires NoWhite(s)
    ensures Trim(s) == s
  {
    TrimFixed(s);
  }

  lemma {:induction false} NumbersArePlain(n: nat)
    ensures NoWhite(Decimal(n)) && '-' !in Decimal(n)
    ensures NoWhite(Pad2(n)) && '-' !in Pad2(n)
  {
  }
}
