/**
 * The string operations the handlers rely on: ASCII lower-casing, substring search
 * (`includes`), whitespace trimming (`trim`), splitting on commas (`split(',')`) and the
 * decimal rendering of a number inside a template string.
 */
module Text {

  predicate IsUpper(c: char) { 'A' <= c <= 'Z' }

  /** Lower-cases one ASCII letter and leaves every other character alone. */
  function LowerChar(c: char): (r: char)
    ensures !IsUpper(r)
    ensures IsUpper(c) || r == c
  {
    if IsUpper(c) then (c as int + 32) as char else c
  }

  /** `toLowerCase`, restricted to ASCII: same length, no upper-case letter left. */
  function Lower(s: string): (r: string)
    ensures |r| == |s|
    ensures forall i :: 0 <= i < |r| ==> !IsUpper(r[i])
  {
    seq(|s|, i requires 0 <= i < |s| => LowerChar(s[i]))
  }

  /** The pattern occurs in the text starting at offset i. */
  predicate OccursAt(text: string, pat: string, i: int)
  {
    0 <= i && i + |pat| <= |text| && text[i..i + |pat|] == pat
  }

  /** `text.includes(pat)`: a left-to-right search for the pattern. */
  function Contains(text: string, pat: string): (r: bool)
    ensures r ==> |pat| <= |text|
    ensures pat <= text ==> r
    decreases |text|
  {
    pat <= text || (|text| > 0 && Contains(text[1..], pat))
  }

  /** The search answers true exactly when the pattern occurs somewhere in the text. */
  lemma {:induction false} ContainsIffOccurs(text: string, pat: string)
    ensures Contains(text, pat) <==> exists i :: OccursAt(text, pat, i)
    decreases |text|
  {
    if Contains(text, pat) {
      if pat <= text {
        assert OccursAt(text, pat, 0);
      } else {
        ContainsIffOccurs(text[1..], pat);
        var i :| OccursAt(text[1..], pat, i);
        assert text[i + 1..i + 1 + |pat|] == pat by {
          forall k | 0 <= k < |pat| ensures text[i + 1 + k] == pat[k] {
            assert text[1..][i..i + |pat|][k] == pat[k];
          }
        }
        assert OccursAt(text, pat, i + 1);
      }
    } else {
      forall i | OccursAt(text, pat, i)
        ensures false
      {
        if i > 0 {
          assert text[1..][i - 1..i - 1 + |pat|] == pat by {
            forall k | 0 <= k < |pat| ensures text[1..][i - 1 + k] == pat[k] {
              assert text[i..i + |pat|][k] == pat[k];
            }
          }
          assert OccursAt(text[1..], pat, i - 1);
          ContainsIffOccurs(text[1..], pat);
        }
      }
    }
  }

  /** The empty pattern occurs in every text, as with `"abc".includes("")`. */
  lemma EmptyPatternAlwaysContained(text: string)
    ensures Contains(text, [])
  {
  }

  /** The characters `String.prototype.trim` removes: white space and line terminators. */
  predicate IsWhitespace(c: char)
  {
    c == '\t' || c == '\n' || c == '\U{000B}' || c == '\U{000C}' || c == '\r' || c == ' '
    || c == '\U{00A0}' || c == '\U{1680}' || '\U{2000}' <= c <= '\U{200A}'
    || c == '\U{2028}' || c == '\U{2029}' || c == '\U{202F}' || c == '\U{205F}'
    || c == '\U{3000}' || c == '\U{FEFF}'
  }

  predicate AllWhitespace(s: string)
  {
    forall i :: 0 <= i < |s| ==> IsWhitespace(s[i])
  }

  /** Drops leading white space: the result is a suffix, and only white space was dropped. */
  function TrimStart(s: string): (r: string)
    ensures |r| <= |s| && r == s[|s| - |r|..]
    ensures AllWhitespace(s[..|s| - |r|])
    ensures r == [] || !IsWhitespace(r[0])
  {
    if |s| > 0 && IsWhitespace(s[0]) then
      var r := TrimStart(s[1..]);
      assert s[1..][|s| - 1 - |r|..] == s[|s| - |r|..];
      assert forall i :: 1 <= i < |s| - |r| ==> s[i] == s[1..][..|s| - 1 - |r|][i - 1];
      r
    else s
  }

  /** Drops trailing white space: the result is a prefix, and only white space was dropped. */
  function TrimEnd(s: string): (r: string)
    ensures |r| <= |s| && r == s[..|r|]
    ensures AllWhitespace(s[|r|..])
    ensures r == [] || !IsWhitespace(r[|r| - 1])
  {
    if |s| > 0 && IsWhitespace(s[|s| - 1]) then
      var r := TrimEnd(s[..|s| - 1]);
      assert s[|r|..] == s[..|s| - 1][|r|..] + [s[|s| - 1]];
      r
    else s
  }

  /** `trim()`: white space dropped from both ends. */
  function Trim(s: string): (r: string)
    ensures |r| <= |s|
    ensures r == [] || (!IsWhitespace(r[0]) && !IsWhitespace(r[|r| - 1]))
  {
    TrimEnd(TrimStart(s))
  }

  /** r sits at offset i of s with nothing but white space before and after it. */
  predicate InfixAmidWhitespace(s: string, r: string, i: int)
  {
    0 <= i <= |s| - |r| && r == s[i..i + |r|] && AllWhitespace(s[..i]) && AllWhitespace(s[i + |r|..])
  }

  /** The trimmed text is an infix of s with only white space around it. */
  lemma TrimIsInfix(s: string)
    ensures exists i :: InfixAmidWhitespace(s, Trim(s), i)
  {
    var t := TrimStart(s);
    var r := TrimEnd(t);
    var i := |s| - |t|;
    assert Trim(s) == r;
    assert r == s[i..i + |r|] by {
      assert t == s[i..];
      assert r == t[..|r|];
    }
    assert s[i + |r|..] == t[|r|..];
    assert InfixAmidWhitespace(s, r, i);
  }

  /** Trimming twice changes nothing more than trimming once. */
  lemma TrimIdempotent(s: string)
    ensures Trim(Trim(s)) == Trim(s)
  {
    var r := Trim(s);
    if r != [] {
      assert TrimStart(r) == r;
      assert TrimEnd(r) == r;
    }
  }

  /** Number of commas in s. */
  function CommaCount(s: string): nat
  {
    if s == [] then 0 else (if s[0] == ',' then 1 else 0) + CommaCount(s[1..])
  }

  /** A string has no comma exactly when its comma count is zero. */
  lemma {:induction false} NoCommaIffZeroCount(s: string)
    ensures CommaCount(s) == 0 <==> ',' !in s
  {
    if s != [] {
      NoCommaIffZeroCount(s[1..]);
      assert s == [s[0]] + s[1..];
    }
  }

  /** `split(',')`: the pieces between commas, in order; never empty, no piece holds a comma. */
  function Split(s: string): (parts: seq<string>)
    ensures |parts| >= 1
    ensures forall k :: 0 <= k < |parts| ==> ',' !in parts[k]
  {
    if s == [] then [[]]
    else
      var rest := Split(s[1..]);
      if s[0] == ',' then [[]] + rest else [[s[0]] + rest[0]] + rest[1..]
  }

  /** `join(',')`, the inverse of Split. */
  function Join(parts: seq<string>): string
    requires |parts| >= 1
  {
    if |parts| == 1 then parts[0] else parts[0] + "," + Join(parts[1..])
  }

  /** Splitting yields one more piece than there are commas. */
  lemma {:induction false} SplitCount(s: string)
    ensures |Split(s)| == CommaCount(s) + 1
  {
    if s != [] {
      SplitCount(s[1..]);
    }
  }

  /** Joining the pieces with commas gives back the original string. */
  lemma {:induction false} JoinSplit(s: string)
    ensures Join(Split(s)) == s
  {
    if s != [] {
      var rest := Split(s[1..]);
      JoinSplit(s[1..]);
      if s[0] == ',' {
        assert Split(s)[1..] == rest;
      } else {
        var parts := Split(s);
        assert parts[1..] == rest[1..];
        if |rest| == 1 {
          assert Join(parts) == [s[0]] + rest[0];
        } else {
          assert Join(parts) == [s[0]] + rest[0] + "," + Join(rest[1..]);
        }
      }
    }
  }

  /** Comma-free pieces joined with commas split back into the same pieces. */
  lemma {:induction false} SplitJoin(parts: seq<string>)
    requires |parts| >= 1
    requires forall k :: 0 <= k < |parts| ==> ',' !in parts[k]
    ensures Split(Join(parts)) == parts
    decreases |parts|, |parts[0]|
  {
    var head := parts[0];
    if head == [] {
      if |parts| > 1 {
        SplitJoin(parts[1..]);
        assert Join(parts) == [','] + Join(parts[1..]);
        assert Join(parts)[1..] == Join(parts[1..]);
      }
    } else {
      var shorter := [head[1..]] + parts[1..];
      assert forall k :: 0 <= k < |shorter| ==> ',' !in shorter[k] by {
        forall k | 0 <= k < |shorter| ensures ',' !in shorter[k] {
          if k == 0 {
            assert forall c :: c in head[1..] ==> c in head;
          } else {
            assert shorter[k] == parts[k];
          }
        }
      }
      SplitJoin(shorter);
      var j := Join(parts);
      if |parts| == 1 {
        assert j[1..] == Join(shorter);
      } else {
        assert j == [head[0]] + (head[1..] + "," + Join(parts[1..]));
        assert j[1..] == Join(shorter);
      }
      assert j[0] == head[0] && head[0] != ',';
      assert [head[0]] + head[1..] == head;
    }
  }

  /** The decimal digit character for 0..9. */
  function Digit(d: int): (c: char)
    requires 0 <= d < 10
    ensures '0' <= c <= '9' && c as int - '0' as int == d
  {
    (d + '0' as int) as char
  }

  /** The decimal rendering of a natural number, as JavaScript prints an integral value. */
  function NatToString(n: nat): (s: string)
    ensures |s| >= 1
    ensures forall i :: 0 <= i < |s| ==> '0' <= s[i] <= '9'
    ensures s[0] == '0' ==> n == 0
  {
    if n < 10 then [Digit(n)] else NatToString(n / 10) + [Digit(n % 10)]
  }

  /** Reads a string of decimal digits back as a number. */
  function ParseNat(s: string): nat
  {
    if s == [] then 0
    else
      var d := s[|s| - 1] as int - '0' as int;
      ParseNat(s[..|s| - 1]) * 10 + (if 0 <= d < 10 then d else 0)
  }

  /** Printing a natural number and reading the digits back gives the number. */
  lemma {:induction false} ParseNatToString(n: nat)
    ensures ParseNat(NatToString(n)) == n
  {
    var s := NatToString(n);
    if n >= 10 {
      ParseNatToString(n / 10);
      assert s[..|s| - 1] == NatToString(n / 10);
    }
  }

  /**
   * The JavaScript rendering of t/10 for an integer number of tenths t: the integral
   * part, then a point and the tenths digit unless it is zero.
   */
  function FormatTenths(t: int): (s: string)
    ensures |s| >= 1
    ensures (t >= 0) == (s[0] != '-')
    ensures t >= 0 ==> s == NatToString(t / 10) + (if t % 10 == 0 then "" else ['.', Digit(t % 10)])
    decreases if t < 0 then 1 else 0
  {
    if t < 0 then "-" + FormatTenths(-t)
    else NatToString(t / 10) + (if t % 10 == 0 then "" else "." + [Digit(t % 10)])
  }

  /** Reads back a rendering of tenths: an optional '-', the integral digits, then '.' and one digit if present. */
  function ParseTenths(s: string): int
    decreases |s|
  {
    if |s| > 0 && s[0] == '-' then -ParseTenths(s[1..])
    else if |s| >= 2 && s[|s| - 2] == '.' then
      var d := s[|s| - 1] as int - '0' as int;
      ParseNat(s[..|s| - 2]) * 10 + (if 0 <= d < 10 then d else 0)
    else ParseNat(s) * 10
  }

  /** The rendering of a number of tenths reads back to that number, so it shows its value. */
  lemma ParseTenthsFormatTenths(t: int)
    ensures ParseTenths(FormatTenths(t)) == t
    decreases if t < 0 then 1 else 0
  {
    if t < 0 {
      ParseTenthsFormatTenths(-t);
      assert FormatTenths(t)[1..] == FormatTenths(-t);
    } else {
      var n := NatToString(t / 10);
      ParseNatToString(t / 10);
      var s := FormatTenths(t);
      assert s[0] == n[0] != '-';
      if t % 10 != 0 {
        assert s == n + ['.', Digit(t % 10)];
        assert s[..|s| - 2] == n;
      } else if |s| >= 2 {
        assert s == n && '0' <= s[|s| - 2] <= '9';
      }
    }
  }
}
