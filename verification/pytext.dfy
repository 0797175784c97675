/**
 * The Python string builtins the row codec relies on: `str.lower`, `str.split(',')`,
 * `','.join`, the slice `s[1:-1]`, `str(int)` and `int(str)` in base 10.
 */
module PyText {
  import opened Types

  // ---------------------------------------------------------------- lower()

  /** Lower-cases one ASCII capital; every other character is left alone. */
  function LowerChar(c: char): char
  {
    if 'A' <= c <= 'Z' then (c as int + 32) as char else c
  }

  /** `s.lower()` restricted to the ASCII letters. */
  function Lower(s: string): (r: string)
    ensures |r| == |s|
    ensures forall i :: 0 <= i < |s| ==> ('A' <= s[i] <= 'Z' <==> r[i] != s[i])
    ensures forall i :: 0 <= i < |s| && 'A' <= s[i] <= 'Z' ==> 'a' <= r[i] <= 'z' && r[i] as int - s[i] as int == 32
  {
    seq(|s|, i requires 0 <= i < |s| => LowerChar(s[i]))
  }

  // ---------------------------------------------------------------- slicing

  /** `s[1:-1]`: drops the first and the last character; strings shorter than three give "". */
  function Inner(s: string): (r: string)
    ensures |r| == if |s| <= 2 then 0 else |s| - 2
    ensures forall i :: 0 <= i < |r| ==> r[i] == s[i + 1]
  {
    if |s| <= 2 then "" else s[1..|s| - 1]
  }

  // ---------------------------------------------------------------- split / join

  /** `s.split(sep)` for a one-character separator. */
  function Split(s: string, sep: char): (r: seq<string>)
    ensures |r| >= 1
    ensures forall i :: 0 <= i < |r| ==> sep !in r[i]
  {
    if s == [] then [[]]
    else
      var rest := Split(s[1..], sep);
      if s[0] == sep then [[]] + rest
      else [[s[0]] + rest[0]] + rest[1..]
  }

  /** `sep.join(pieces)`. */
  function Join(pieces: seq<string>, sep: char): (r: string)
    ensures pieces == [] ==> r == []
    ensures |pieces| >= 1 ==> |r| >= |pieces[0]| && r[..|pieces[0]|] == pieces[0]
    ensures |pieces| >= 2 ==> |r| > |pieces[0]| && r[|pieces[0]|] == sep
  {
    if |pieces| == 0 then []
    else if |pieces| == 1 then pieces[0]
    else pieces[0] + [sep] + Join(pieces[1..], sep)
  }

  /** Joining the pieces of a split gives back the original string. */
  lemma {:induction false} JoinSplit(s: string, sep: char)
    ensures Join(Split(s, sep), sep) == s
  {
    if s != [] {
      JoinSplit(s[1..], sep);
      var rest := Split(s[1..], sep);
      if s[0] == sep {
        assert Split(s, sep) == [[]] + rest;
        if |rest| == 1 {
          assert Join(Split(s, sep), sep) == [] + [sep] + rest[0];
        } else {
          assert Join(Split(s, sep), sep) == [] + [sep] + Join(rest, sep);
        }
      } else {
        var r := Split(s, sep);
        assert r == [[s[0]] + rest[0]] + rest[1..];
        if |rest| == 1 {
          assert Join(r, sep) == [s[0]] + rest[0];
        } else {
          assert r[1..] == rest[1..];
          assert Join(rest, sep) == rest[0] + [sep] + Join(rest[1..], sep);
          assert Join(r, sep) == [s[0]] + rest[0] + [sep] + Join(rest[1..], sep);
        }
      }
    }
  }

  /** Splitting a join of separator-free pieces gives back the pieces. */
  lemma {:induction false} SplitJoin(pieces: seq<string>, sep: char)
    requires |pieces| >= 1
    requires forall i :: 0 <= i < |pieces| ==> sep !in pieces[i]
    ensures Split(Join(pieces, sep), sep) == pieces
  {
    if |pieces| == 1 {
      SplitPlain(pieces[0], sep);
    } else {
      SplitJoin(pieces[1..], sep);
      SplitHead(pieces[0], [sep] + Join(pieces[1..], sep), sep);
      assert Join(pieces, sep) == pieces[0] + ([sep] + Join(pieces[1..], sep));
    }
  }

  /** A string without the separator splits into itself alone. */
  lemma {:induction false} SplitPlain(s: string, sep: char)
    requires sep !in s
    ensures Split(s, sep) == [s]
  {
    if s != [] {
      assert s[0] != sep;
      SplitPlain(s[1..], sep);
      assert [s[0]] + s[1..] == s;
    }
  }

  /**
   * Splitting `p + t`, where `p` holds no separator and `t` is empty or starts with one,
   * gives `p` as first piece and the pieces of what follows that separator after it.
   */
  lemma {:induction false} SplitHead(p: string, t: string, sep: char)
    requires sep !in p
    requires t != [] && t[0] == sep
    ensures Split(p + t, sep) == [p] + Split(t[1..], sep)
  {
    if p == [] {
      assert p + t == t;
    } else {
      SplitHead(p[1..], t, sep);
      assert (p + t)[0] == p[0] != sep;
      assert (p + t)[1..] == p[1..] + t;
      assert [p[0]] + p[1..] == p;
    }
  }

  // ---------------------------------------------------------------- str(int)

  predicate IsDigit(c: char)
  {
    '0' <= c <= '9'
  }

  function DigitChar(d: int): char
    requires 0 <= d < 10
  {
    ('0' as int + d) as char
  }

  function DigitValue(c: char): nat
    requires IsDigit(c)
  {
    c as int - '0' as int
  }

  /** Decimal digits of a natural number, most significant first, without leading zeros. */
  function ShowNat(n: nat): (r: string)
    ensures |r| >= 1
    ensures forall i :: 0 <= i < |r| ==> IsDigit(r[i])
  {
    if n < 10 then [DigitChar(n)] else ShowNat(n / 10) + [DigitChar(n % 10)]
  }

  /** `str(n)` for an int: an optional minus sign followed by digits, so never a comma. */
  function ShowInt(n: int): (r: string)
    ensures |r| >= 1 && (r[0] == '-' <==> n < 0) && (n >= 0 ==> IsDigit(r[0]))
    ensures forall i :: 1 <= i < |r| ==> IsDigit(r[i])
  {
    if n < 0 then "-" + ShowNat(-n) else ShowNat(n)
  }

  // ---------------------------------------------------------------- int(str)

  /**
   * The ASCII characters `int()` strips around a literal: space, tab, line feed, vertical
   * tab, form feed and carriage return.
   */
  predicate IsSpace(c: char)
  {
    c == ' ' || 9 <= c as int <= 13
  }

  /** `s.lstrip()` over `IsSpace`: a suffix of `s` that does not start with white space. */
  function StripStart(s: string): (r: string)
  {
    if |s| > 0 && IsSpace(s[0]) then StripStart(s[1..]) else s
  }

  /** `s.rstrip()` over `IsSpace`: a prefix of `s` that does not end with white space. */
  function StripEnd(s: string): (r: string)
  {
    if |s| > 0 && IsSpace(s[|s| - 1]) then StripEnd(s[..|s| - 1]) else s
  }

  /**
   * The digit part of a base-10 literal as `int()` accepts it: digits, with single
   * underscores allowed between two digits.
   */
  predicate IsDigitGroup(s: string)
  {
    && |s| > 0
    && IsDigit(s[0])
    && IsDigit(s[|s| - 1])
    && (forall i :: 0 <= i < |s| ==> IsDigit(s[i]) || s[i] == '_')
    && (forall i :: 0 <= i < |s| - 1 ==> s[i] == '_' ==> s[i + 1] != '_')
  }

  /** The value of the digits of `s`, most significant first; other characters are skipped. */
  function DigitsValue(s: string): nat
  {
    if s == [] then 0
    else if IsDigit(s[|s| - 1]) then 10 * DigitsValue(s[..|s| - 1]) + DigitValue(s[|s| - 1])
    else DigitsValue(s[..|s| - 1])
  }

  /** Every character left after stripping white space is a character of the string. */
  lemma StripInfix(s: string)
    ensures forall k :: 0 <= k < |StripEnd(StripStart(s))| ==> StripEnd(StripStart(s))[k] in s
  {
    var u := StripStart(s);
    StripStartSuffix(s);
    StripEndPrefix(u);
    forall k | 0 <= k < |StripEnd(u)| ensures StripEnd(u)[k] in s {
      assert StripEnd(u)[k] == s[|s| - |u| + k];
    }
  }

  /** `StripStart(s)` is a suffix of `s`. */
  lemma {:induction false} StripStartSuffix(s: string)
    ensures |StripStart(s)| <= |s| && StripStart(s) == s[|s| - |StripStart(s)|..]
  {
    if |s| > 0 && IsSpace(s[0]) {
      StripStartSuffix(s[1..]);
    }
  }

  /** `StripEnd(s)` is a prefix of `s`. */
  lemma {:induction false} StripEndPrefix(s: string)
    ensures |StripEnd(s)| <= |s| && StripEnd(s) == s[..|StripEnd(s)|]
  {
    if |s| > 0 && IsSpace(s[|s| - 1]) {
      StripEndPrefix(s[..|s| - 1]);
    }
  }

  /** `int(s)`: `None` stands for the `ValueError` Python raises. */
  function ParseInt(s: string): (r: Option<int>)
    ensures r.Some? ==> exists i :: 0 <= i < |s| && IsDigit(s[i])
  {
    StripInfix(s);
    var t := StripEnd(StripStart(s));
    if |t| > 0 && (t[0] == '+' || t[0] == '-') then
      if IsDigitGroup(t[1..]) then
        Some(if t[0] == '-' then -(DigitsValue(t[1..]) as int) else DigitsValue(t[1..]))
      else None
    else if IsDigitGroup(t) then Some(DigitsValue(t))
    else None
  }

  lemma {:induction false} ShowNatValue(n: nat)
    ensures DigitsValue(ShowNat(n)) == n
  {
    var s := ShowNat(n);
    if n >= 10 {
      ShowNatValue(n / 10);
      assert s[..|s| - 1] == ShowNat(n / 10);
    } else {
      assert s[..|s| - 1] == [];
    }
  }

  /** `int(str(n)) == n` for every int. */
  lemma ParseShowInt(n: int)
    ensures ParseInt(ShowInt(n)) == Some(n)
  {
    var s := ShowInt(n);
    var m: nat := if n < 0 then -n else n;
    assert !IsSpace(s[0]) && !IsSpace(s[|s| - 1]);
    assert StripEnd(StripStart(s)) == s;
    ShowNatValue(m);
    if n < 0 {
      assert s[1..] == ShowNat(m);
      assert IsDigitGroup(s[1..]);
    } else {
      assert IsDigitGroup(s);
    }
  }

  /** On a string made only of digits `int()` fails exactly when it is empty, and is never negative. */
  lemma DigitsOnlyParse(s: string)
    requires forall i :: 0 <= i < |s| ==> IsDigit(s[i])
    ensures ParseInt(s) == if s == [] then None else Some(DigitsValue(s) as int)
  {
    if s != [] {
      assert !IsSpace(s[0]) && !IsSpace(s[|s| - 1]);
      assert StripEnd(StripStart(s)) == s;
    }
  }

  /**
   * Dropping the leading digit of `str(n)`, for `n >= 10`, leaves a number smaller than `n`.
   */
  lemma {:induction false} TailSmaller(n: nat)
    requires n >= 10
    ensures DigitsValue(ShowNat(n)[1..]) < n
  {
    var head := ShowNat(n / 10);
    var d := DigitChar(n % 10);
    assert ShowNat(n) == head + [d];
    assert ShowNat(n)[1..] == head[1..] + [d];
    assert (head[1..] + [d])[..|head[1..]|] == head[1..];
    if n / 10 >= 10 {
      TailSmaller(n / 10);
    } else {
      assert head[1..] == [];
    }
  }

  /**
   * `int()` strips a surrounding space and line feed, but not the file separator (code
   * point 28), which `str.isspace()` accepts and `int()` rejects.
   */
  lemma IntStripsOnlyAsciiWhitespace()
    ensures ParseInt(" 4\n") == Some(4)
    ensures ParseInt([28 as char, '4']) == None
  {
    assert StripStart(" 4\n") == "4\n";
    assert StripEnd("4\n") == "4";
    assert DigitsValue("4") == 4 by {
      assert "4"[..0] == [];
    }
    assert StripEnd(StripStart([28 as char, '4'])) == [28 as char, '4'];
  }
}
