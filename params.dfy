/** The string-valued parameter map every encoding is constructed from,
    and the conversions the encodings apply to its values: `toInt` reads
    an optionally signed run of decimal digits and stops at the first
    other character, `toDouble` reads an optionally signed decimal
    number with an optional fraction; a string without a leading number
    converts to 0. Leading white space, exponents and hexadecimal
    numbers are not read. */
module Params {

  type StringMap = map<string, string>

  /** `isnull(params[key])`: the parameter is absent. */
  predicate IsNull(params: StringMap, key: string) { key !in params }

  /** `params[key]`: an absent parameter reads as the empty string. */
  function Get(params: StringMap, key: string): string {
    if key in params then params[key] else ""
  }

  /** Reading a parameter is reading it with the empty string as its
      default, so an absent parameter converts to 0. */
  lemma GetAbsent(params: StringMap, key: string)
    ensures Get(params, key) == GetOrDefault(params, key, "")
    ensures key !in params ==> Atoi(Get(params, key)) == 0 && Atof(Get(params, key)) == 0.0
  {
    assert DigitRun("") == 0 && ""[..0] == "";
  }

  function GetOrDefault(params: StringMap, key: string, default: string): (r: string)
    ensures key in params ==> r == params[key]
    ensures key !in params ==> r == default
  {
    if key in params then params[key] else default
  }

  predicate IsDigit(c: char) { 48 <= c as int <= 57 }

  /** Length of the run of digits that starts `s`. */
  function DigitRun(s: string): (n: nat)
    ensures n <= |s|
    ensures forall i :: 0 <= i < n ==> IsDigit(s[i])
    ensures n < |s| ==> !IsDigit(s[n])
  {
    if |s| > 0 && IsDigit(s[0]) then 1 + DigitRun(s[1..]) else 0
  }

  /** The number a string of decimal digits denotes. */
  function NatOf(ds: string): nat
    requires forall i :: 0 <= i < |ds| ==> IsDigit(ds[i])
  {
    if |ds| == 0 then 0
    else
      assert IsDigit(ds[|ds| - 1]);
      10 * NatOf(ds[..|ds| - 1]) + (ds[|ds| - 1] as int - 48)
  }

  function Pow10(n: nat): (r: nat)
    ensures r >= 1
  {
    if n == 0 then 1 else 10 * Pow10(n - 1)
  }

  /** Magnitude of the unsigned number at the head of `s`. */
  function UnsignedInt(s: string): nat {
    NatOf(s[..DigitRun(s)])
  }

  function Atoi(s: string): int {
    if |s| > 0 && s[0] == '-' then 0 - UnsignedInt(s[1..])
    else if |s| > 0 && s[0] == '+' then UnsignedInt(s[1..])
    else UnsignedInt(s)
  }

  /** Magnitude of the unsigned decimal number at the head of `s`. */
  function UnsignedReal(s: string): real {
    var n := DigitRun(s);
    var whole := NatOf(s[..n]) as real;
    if n < |s| && s[n] == '.' then
      var rest := s[n + 1..];
      var m := DigitRun(rest);
      whole + (NatOf(rest[..m]) as real) / (Pow10(m) as real)
    else whole
  }

  function Atof(s: string): real {
    if |s| > 0 && s[0] == '-' then 0.0 - UnsignedReal(s[1..])
    else if |s| > 0 && s[0] == '+' then UnsignedReal(s[1..])
    else UnsignedReal(s)
  }

  /** `String::split(parts, sep)`: the pieces of `s` between separators;
      n separators give n+1 pieces. */
  function Split(s: string, sep: char): (parts: seq<string>)
    ensures |parts| >= 1
    ensures forall p :: p in parts ==> sep !in p
    decreases |s|
  {
    if |s| == 0 then [""]
    else
      var rest := Split(s[1..], sep);
      if s[0] == sep then [""] + rest
      else [[s[0]] + rest[0]] + rest[1..]
  }

  function Join(parts: seq<string>, sep: char): string
    requires |parts| >= 1
  {
    if |parts| == 1 then parts[0] else parts[0] + [sep] + Join(parts[1..], sep)
  }

  function Occurrences(s: string, c: char): nat {
    if |s| == 0 then 0 else (if s[0] == c then 1 else 0) + Occurrences(s[1..], c)
  }

  lemma {:induction false} OccurrencesConcat(a: string, b: string, c: char)
    ensures Occurrences(a + b, c) == Occurrences(a, c) + Occurrences(b, c)
    decreases |a|
  {
    if |a| == 0 {
      assert a + b == b;
    } else {
      assert (a + b)[1..] == a[1..] + b;
      OccurrencesConcat(a[1..], b, c);
    }
  }

  /** Splitting loses nothing: joining the pieces back gives the string. */
  lemma {:induction false} SplitJoin(s: string, sep: char)
    ensures Join(Split(s, sep), sep) == s
    decreases |s|
  {
    if |s| > 0 {
      var rest := Split(s[1..], sep);
      SplitJoin(s[1..], sep);
      if s[0] == sep {
        assert Split(s, sep)[1..] == rest;
        calc {
          Join(Split(s, sep), sep);
          "" + [sep] + Join(rest, sep);
          [sep] + s[1..];
          s;
        }
      } else {
        var parts := Split(s, sep);
        assert parts[0] == [s[0]] + rest[0];
        if |rest| == 1 {
          assert Join(rest, sep) == rest[0];
          assert s == [s[0]] + s[1..];
        } else {
          assert parts[1..] == rest[1..];
          assert Join(rest, sep) == rest[0] + [sep] + Join(rest[1..], sep);
          assert s == [s[0]] + s[1..];
        }
      }
    }
  }

  /** One piece per separator, plus one. */
  lemma {:induction false} SplitCount(s: string, sep: char)
    ensures |Split(s, sep)| == Occurrences(s, sep) + 1
    decreases |s|
  {
    if |s| > 0 {
      SplitCount(s[1..], sep);
    }
  }

  /** The digit run of a run of digits followed by anything that does
      not start with a digit is the whole run. */
  lemma {:induction false} DigitRunPrefix(ds: string, t: string)
    requires forall i :: 0 <= i < |ds| ==> IsDigit(ds[i])
    requires |t| == 0 || !IsDigit(t[0])
    ensures DigitRun(ds + t) == |ds|
    decreases |ds|
  {
    if |ds| > 0 {
      assert (ds + t)[1..] == ds[1..] + t;
      DigitRunPrefix(ds[1..], t);
    } else {
      assert ds + t == t;
    }
  }

  /** The magnitude at the head of a run of digits followed by a
      non-digit is the number of the run. */
  lemma UnsignedPrefix(ds: string, t: string)
    requires forall i :: 0 <= i < |ds| ==> IsDigit(ds[i])
    requires |t| == 0 || !IsDigit(t[0])
    ensures UnsignedInt(ds + t) == NatOf(ds)
  {
    DigitRunPrefix(ds, t);
    assert (ds + t)[..|ds|] == ds;
  }

  /** `toInt` reads the signed digit run at the head of a parameter and
      ignores whatever follows the run. */
  lemma AtoiPrefix(ds: string, t: string)
    requires |ds| > 0 && forall i :: 0 <= i < |ds| ==> IsDigit(ds[i])
    requires |t| == 0 || !IsDigit(t[0])
    ensures Atoi(ds + t) == NatOf(ds)
    ensures Atoi("-" + (ds + t)) == 0 - NatOf(ds)
    ensures Atoi("+" + (ds + t)) == NatOf(ds)
  {
    var s := ds + t;
    UnsignedPrefix(ds, t);
    assert IsDigit(s[0]) by { assert s[0] == ds[0]; }
    assert Atoi(s) == UnsignedInt(s);
    var m := "-" + s;
    assert m[0] == '-' && m[1..] == s;
    var p := "+" + s;
    assert p[0] == '+' && p[1..] == s;
  }

  /** A one-digit parameter reads as its digit. */
  lemma AtoiOneDigit(c: char)
    requires IsDigit(c)
    ensures Atoi([c]) == c as int - 48
  {
    assert DigitRun([c][1..]) == 0;
    assert [c][..1] == [c];
    assert NatOf([c]) == c as int - 48 by { assert [c][..0] == []; }
  }

  /** A two-digit parameter reads as its number. */
  lemma AtoiTwoDigits(c: char, d: char)
    requires IsDigit(c) && IsDigit(d)
    ensures Atoi([c, d]) == 10 * (c as int - 48) + (d as int - 48)
  {
    assert [c, d][1..] == [d];
    assert [d][1..] == [];
    assert [c, d][..2] == [c, d];
    assert NatOf([c]) == c as int - 48 by { assert [c][..0] == []; }
    assert [c, d][..1] == [c];
  }

  lemma AtofExamples()
    ensures Atof("0.5") == 0.5
    ensures Atof("auto-network") == 0.0
    ensures Atof("auto-cell") == 0.0
  {
    assert DigitRun("0.5") == 1 by {
      assert DigitRun(".5") == 0;
    }
    assert "0.5"[..1] == "0";
    assert NatOf("0") == 0 by { assert "0"[..0] == ""; }
    assert "0.5"[2..] == "5";
    assert DigitRun("5") == 1 by { assert DigitRun("") == 0; }
    assert "5"[..1] == "5";
    assert NatOf("5") == 5 by { assert "5"[..0] == ""; }
    assert DigitRun("auto-network") == 0;
    assert DigitRun("auto-cell") == 0;
    assert "auto-network"[..0] == "";
    assert "auto-cell"[..0] == "";
  }
}
