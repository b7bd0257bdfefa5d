/**
 * The string operations the pipeline in build/main.js applies to upstream fields:
 * `startsWith`, `split`, unary `+` on a length token, the mask substitution,
 * the `{X>}` test, the all-zero template and the blank stripping of patterns.
 */
module Strings {
  import opened Wrappers

  /** `s.startsWith(p)`. */
  predicate StartsWith(s: string, p: string) {
    p <= s
  }

  /** `s.split(sep)` with a one-character separator, or with a character class such as `/[-,]/`:
      always at least one token, and the empty string gives `[""]`. */
  function Split(s: string, seps: set<char>): (r: seq<string>)
    ensures |r| >= 1
    ensures forall i, c :: 0 <= i < |r| && c in r[i] ==> c !in seps
    ensures |r| == 1 ==> r[0] == s
    ensures |r[|r| - 1]| <= |s| && (|r| > 1 ==> |r[|r| - 1]| < |s|)
  {
    if s == [] then [""]
    else if s[0] in seps then [""] + Split(s[1..], seps)
    else
      var rest := Split(s[1..], seps);
      [[s[0]] + rest[0]] + rest[1..]
  }

  /** `parts.join(sep)`. */
  function Join(parts: seq<string>, sep: char): string
    requires |parts| >= 1
  {
    if |parts| == 1 then parts[0] else parts[0] + [sep] + Join(parts[1..], sep)
  }

  /** Splitting on one separator and joining with it gives the string back. */
  lemma {:induction false} JoinSplit(s: string, sep: char)
    ensures Join(Split(s, {sep}), sep) == s
  {
    if s != [] {
      JoinSplit(s[1..], sep);
      var rest := Split(s[1..], {sep});
      assert s == [s[0]] + s[1..];
      if s[0] == sep {
        assert ([""] + rest)[1..] == rest;
      } else {
        JoinConsHead(s[0], rest, sep);
      }
    }
  }

  lemma JoinConsHead(c: char, parts: seq<string>, sep: char)
    requires |parts| >= 1
    ensures Join([[c] + parts[0]] + parts[1..], sep) == [c] + Join(parts, sep)
  {
    if |parts| > 1 {
      assert ([[c] + parts[0]] + parts[1..])[1..] == parts[1..];
    }
  }


  /** `arr[arr.length - 1]` for `arr = s.split(/[...]/)`: the last token. */
  function LastToken(s: string, seps: set<char>): string {
    var parts := Split(s, seps);
    parts[|parts| - 1]
  }

  /** The last token is the suffix of `s` after its last separator (all of `s` when there is none). */
  lemma LastTokenIsFinalSegment(s: string, seps: set<char>)
    ensures var t := LastToken(s, seps);
      && |t| <= |s| && s[|s| - |t|..] == t
      && (forall c :: c in t ==> c !in seps)
      && (|t| < |s| ==> s[|s| - |t| - 1] in seps)
  {
    var parts := Split(s, seps);
    assert parts[|parts| - 1] in parts;
    LastTokenIsSuffix(s, seps);
    LastTokenAfterSeparator(s, seps);
  }

  lemma {:induction false} LastTokenIsSuffix(s: string, seps: set<char>)
    ensures |LastToken(s, seps)| <= |s|
    ensures s[|s| - |LastToken(s, seps)|..] == LastToken(s, seps)
  {
    if s != [] {
      LastTokenIsSuffix(s[1..], seps);
      var rest := Split(s[1..], seps);
      var t := LastToken(s, seps);
      if s[0] in seps || |rest| > 1 {
        assert t == LastToken(s[1..], seps);
        assert s[|s| - |t|..] == s[1..][|s| - 1 - |t|..];
      } else {
        assert t == s;
      }
    }
  }

  lemma {:induction false} LastTokenAfterSeparator(s: string, seps: set<char>)
    ensures |LastToken(s, seps)| < |s| ==> s[|s| - |LastToken(s, seps)| - 1] in seps
  {
    if s != [] {
      LastTokenIsSuffix(s[1..], seps);
      LastTokenAfterSeparator(s[1..], seps);
      var rest := Split(s[1..], seps);
      var t := LastToken(s, seps);
      if s[0] in seps {
        assert t == LastToken(s[1..], seps);
        if |t| < |s| - 1 {
          assert s[|s| - |t| - 1] == s[1..][|s| - 1 - |t| - 1];
        }
      } else if |rest| > 1 {
        assert t == LastToken(s[1..], seps);
        assert |t| < |s| - 1;
        assert s[|s| - |t| - 1] == s[1..][|s| - 1 - |t| - 1];
      } else {
        assert t == s;
      }
    }
  }


  predicate IsDigit(c: char) {
    '0' <= c <= '9'
  }

  /** The value of a string of decimal digits. */
  function DecimalValue(t: string): nat
    requires forall i :: 0 <= i < |t| ==> IsDigit(t[i])
  {
    if t == [] then 0
    else
      var d := t[|t| - 1];
      assert IsDigit(d);
      10 * DecimalValue(t[..|t| - 1]) + (d as int - '0' as int)
  }

  /** Unary `+` on a length token: `+""` is 0 and a digit string is its decimal value.
      Any other token (surrounding whitespace, a sign, a fraction, a binary, octal or
      hexadecimal literal, an exponent, `Infinity`, ...) becomes some number or NaN in
      JavaScript; it is `None` here. */
  function ParseLength(t: string): (r: Option<nat>)
    ensures r.None? <==> exists i :: 0 <= i < |t| && !IsDigit(t[i])
  {
    if forall i :: 0 <= i < |t| ==> IsDigit(t[i]) then Some(DecimalValue(t)) else None
  }

  /** The value of every digit string: the empty token is 0, a leading zero changes
      nothing, and appending a digit multiplies by ten and adds it. */
  lemma ParseLengthDigits(t: string, d: char)
    ensures ParseLength("") == Some(0)
    ensures ParseLength(['0'] + t) == ParseLength(t)
    ensures IsDigit(d) ==>
      ParseLength(t + [d]) == if ParseLength(t).Some? then Some(10 * ParseLength(t).value + (d as int - '0' as int)) else None
  {
    LeadingZero(t);
    assert (t + [d])[..|t|] == t;
  }

  lemma {:induction false} LeadingZero(t: string)
    ensures ParseLength(['0'] + t) == ParseLength(t)
  {
    var z := ['0'] + t;
    if forall i :: 0 <= i < |t| ==> IsDigit(t[i]) {
      assert forall i :: 0 <= i < |z| ==> IsDigit(z[i]);
      DecimalLeadingZero(t);
    } else {
      var i :| 0 <= i < |t| && !IsDigit(t[i]);
      assert z[i + 1] == t[i];
    }
  }

  lemma {:induction false} DecimalLeadingZero(t: string)
    requires forall i :: 0 <= i < |t| ==> IsDigit(t[i])
    ensures forall i :: 0 <= i < |['0'] + t| ==> IsDigit((['0'] + t)[i])
    ensures DecimalValue(['0'] + t) == DecimalValue(t)
  {
    var z := ['0'] + t;
    assert forall i :: 0 <= i < |z| ==> IsDigit(z[i]);
    if t == [] {
      assert z[..0] == [];
    } else {
      var u := t[..|t| - 1];
      DecimalLeadingZero(u);
      assert z[..|z| - 1] == ['0'] + u;
    }
  }

  /** The decimal digits of `n`, without leading zeros. */
  function ShowNat(n: nat): (r: string)
    ensures |r| >= 1 && forall i :: 0 <= i < |r| ==> IsDigit(r[i])
  {
    if n < 10 then ['0' + n as char] else ShowNat(n / 10) + ['0' + (n % 10) as char]
  }

  /** Reading back the digits of a length gives the length. */
  lemma {:induction false} ParseShowNat(n: nat)
    ensures ParseLength(ShowNat(n)) == Some(n)
  {
    var r := ShowNat(n);
    if n < 10 {
      assert r[..0] == [];
      assert r[0] as int - '0' as int == n;
      assert DecimalValue(r) == n;
    } else {
      ParseShowNat(n / 10);
      assert r[..|r| - 1] == ShowNat(n / 10);
      assert r[|r| - 1] as int - '0' as int == n % 10;
    }
  }

  /** The character `/[*X]/g` replaces with the mask symbol `'0'`. */
  predicate IsMaskChar(c: char) {
    c == '*' || c == 'X'
  }

  /** `s.replace(/[*X]/g, '0')`. */
  function Mask(s: string): (r: string)
    ensures |r| == |s|
    ensures forall i :: 0 <= i < |s| ==> r[i] == if IsMaskChar(s[i]) then '0' else s[i]
  {
    if s == [] then [] else [if IsMaskChar(s[0]) then '0' else s[0]] + Mask(s[1..])
  }

  /** `s.indexOf('{X>}') != -1`. */
  predicate HasOpenPlaceholder(s: string) {
    exists i :: 0 <= i < |s| && PlaceholderAt(s, i)
  }

  predicate PlaceholderAt(s: string, i: nat) {
    i + 4 <= |s| && s[i..i + 4] == "{X>}"
  }

  /** `Array.from({ length: n }, () => '0').join('')`. */
  function Zeros(n: nat): (r: string)
    ensures |r| == n && forall i :: 0 <= i < n ==> r[i] == '0'
  {
    seq(n, _ => '0')
  }

  /** The characters `/[ \n]/g` removes. */
  predicate IsBlank(c: char) {
    c == ' ' || c == '\n'
  }

  /** `s.replace(/[ \n]/g, '')`: the non-blank characters of `s`, in order. */
  function StripBlanks(s: string): (r: string)
    ensures |r| <= |s|
    ensures forall c :: c in r ==> c in s && !IsBlank(c)
    ensures (forall i :: 0 <= i < |s| ==> !IsBlank(s[i])) ==> r == s
  {
    if s == [] then [] else if IsBlank(s[0]) then StripBlanks(s[1..]) else [s[0]] + StripBlanks(s[1..])
  }

  /** Stripping filters character by character: a blank goes, any other character stays,
      and the parts of a concatenation are stripped separately. So every non-blank
      character of the pattern survives, in its order. */
  lemma StripBlanksSpec(a: string, b: string)
    ensures StripBlanks(a + b) == StripBlanks(a) + StripBlanks(b)
    ensures forall c :: StripBlanks([c]) == if IsBlank(c) then [] else [c]
  {
    StripBlanksAppend(a, b);
    forall c
      ensures StripBlanks([c]) == if IsBlank(c) then [] else [c]
    {
      assert [c][1..] == [];
    }
  }

  lemma {:induction false} StripBlanksAppend(a: string, b: string)
    ensures StripBlanks(a + b) == StripBlanks(a) + StripBlanks(b)
  {
    if a == [] {
      assert a + b == b;
    } else {
      var ab := a + b;
      assert ab[0] == a[0];
      assert ab[1..] == a[1..] + b;
      StripBlanksAppend(a[1..], b);
      if IsBlank(a[0]) {
        assert StripBlanks(ab) == StripBlanks(a[1..] + b);
      } else {
        assert StripBlanks(ab) == [a[0]] + StripBlanks(a[1..] + b);
      }
    }
  }

  /** Stripping twice strips nothing more. */
  lemma StripBlanksIdempotent(s: string)
    ensures StripBlanks(StripBlanks(s)) == StripBlanks(s)
  {
    var r := StripBlanks(s);
    assert forall i :: 0 <= i < |r| ==> r[i] in r;
  }
}
