/** String primitives the tool relies on, with JavaScript's meaning:
    String.prototype.includes, toLowerCase, trim, and number-to-string. */
module Strings {

  datatype Option<T> = None | Some(value: T)

  /** `t` occurs in `s` starting at position `i`. */
  predicate OccursAt(s: string, t: string, i: int)
  {
    0 <= i && i + |t| <= |s| && s[i..i + |t|] == t
  }

  predicate StartsWith(s: string, t: string)
  {
    |t| <= |s| && s[..|t|] == t
  }

  /** `s.includes(t)`: a left-to-right scan for an occurrence of `t`. */
  predicate Includes(s: string, t: string)
    decreases |s|
  {
    StartsWith(s, t) || (|s| > 0 && Includes(s[1..], t))
  }

  /** The scan finds exactly the positions where `t` occurs. */
  lemma {:induction false} IncludesIff(s: string, t: string)
    ensures Includes(s, t) <==> exists i :: OccursAt(s, t, i)
    decreases |s|
  {
    if StartsWith(s, t) {
      assert OccursAt(s, t, 0);
    } else if |s| > 0 && Includes(s[1..], t) {
      IncludesIff(s[1..], t);
      var i :| OccursAt(s[1..], t, i);
      assert s[1..][i..i + |t|] == s[i + 1..i + 1 + |t|];
      assert OccursAt(s, t, i + 1);
    }
    forall i | OccursAt(s, t, i)
      ensures Includes(s, t)
    {
      OccurrenceIsFound(s, t, i);
    }
  }

  lemma {:induction false} OccurrenceIsFound(s: string, t: string, i: int)
    requires OccursAt(s, t, i)
    ensures Includes(s, t)
    decreases i
  {
    if i == 0 {
      assert StartsWith(s, t);
    } else {
      assert s[1..][i - 1..i - 1 + |t|] == s[i..i + |t|];
      OccurrenceIsFound(s[1..], t, i - 1);
    }
  }

  function LowerChar(c: char): char
  {
    if 'A' <= c <= 'Z' then (c as int + 32) as char else c
  }

  /** `s.toLowerCase()` restricted to the ASCII letters. */
  function ToLower(s: string): (r: string)
    ensures |r| == |s|
  {
    seq(|s|, i requires 0 <= i < |s| => LowerChar(s[i]))
  }

  /** No upper-case letter remains, each upper-case letter becomes the
      same letter in lower case, and every other character is kept in
      place. */
  lemma ToLowerSpec(s: string)
    ensures var r := ToLower(s);
      forall i :: 0 <= i < |r| ==> !('A' <= r[i] <= 'Z')
    ensures var r := ToLower(s);
      forall i :: 0 <= i < |s| && 'A' <= s[i] <= 'Z' ==>
        'a' <= r[i] <= 'z' && r[i] as int - 'a' as int == s[i] as int - 'A' as int
    ensures var r := ToLower(s);
      forall i :: 0 <= i < |s| && !('A' <= s[i] <= 'Z') ==> r[i] == s[i]
  {
  }

  /** Only the letters change case: ".TTF" becomes ".ttf". */
  lemma ToLowerExample()
    ensures ToLower(".TTF") == ".ttf"
  {
    var r := ToLower(".TTF");
    assert r[0] == '.' && r[1] == 't' && r[2] == 't' && r[3] == 'f';
  }

  /** Lower-casing a lower-cased string changes nothing. */
  lemma ToLowerIdempotent(s: string)
    ensures ToLower(ToLower(s)) == ToLower(s)
  {
    var t := ToLower(s);
    ToLowerSpec(s);
    assert forall i :: 0 <= i < |t| ==> ToLower(t)[i] == t[i];
  }

  /** The characters that `String.prototype.trim` removes: ECMAScript
      WhiteSpace and LineTerminator. */
  predicate IsSpace(c: char)
  {
    c == ' ' || c == '\t' || c == '\n' || c == '\r' || c == '\U{000B}' || c == '\U{000C}'
    || c == '\U{00A0}' || c == '\U{1680}' || ('\U{2000}' <= c <= '\U{200A}')
    || c == '\U{2028}' || c == '\U{2029}' || c == '\U{202F}' || c == '\U{205F}'
    || c == '\U{3000}' || c == '\U{FEFF}'
  }

  predicate AllSpace(s: string)
  {
    forall i :: 0 <= i < |s| ==> IsSpace(s[i])
  }

  /** No whitespace at either end. */
  predicate Trimmed(s: string)
  {
    |s| == 0 || (!IsSpace(s[0]) && !IsSpace(s[|s| - 1]))
  }

  /** Drops trailing whitespace: the result is the longest prefix of `s`
      that does not end in whitespace, and only whitespace was dropped. */
  function TrimEnd(s: string): (r: string)
    ensures |r| <= |s| && r == s[..|r|]
    ensures |r| == 0 || !IsSpace(r[|r| - 1])
    ensures AllSpace(s[|r|..])
    decreases |s|
  {
    if |s| > 0 && IsSpace(s[|s| - 1]) then
      var r := TrimEnd(s[..|s| - 1]);
      assert s[|r|..] == s[..|s| - 1][|r|..] + [s[|s| - 1]];
      r
    else s
  }

  /** Drops leading whitespace: the result is the longest suffix of `s`
      that does not start with whitespace, and only whitespace was dropped. */
  function TrimStart(s: string): (r: string)
    ensures |r| <= |s| && r == s[|s| - |r|..]
    ensures |r| == 0 || !IsSpace(r[0])
    ensures AllSpace(s[..|s| - |r|])
    decreases |s|
  {
    if |s| > 0 && IsSpace(s[0]) then TrimStart(s[1..]) else s
  }

  /** `s.trim()`. */
  function Trim(s: string): (r: string)
    ensures Trimmed(r)
  {
    TrimStart(TrimEnd(s))
  }

  /** Appending whitespace does not change what trim yields. */
  lemma {:induction false} TrimEndIgnoresSpaceSuffix(k: string, w: string)
    requires AllSpace(w)
    ensures TrimEnd(k + w) == TrimEnd(k)
    decreases |w|
  {
    if w == [] {
      assert k + w == k;
    } else {
      var w' := w[..|w| - 1];
      assert (k + w)[..|k + w| - 1] == k + w';
      TrimEndIgnoresSpaceSuffix(k, w');
    }
  }

  /** A string with no whitespace at its ends is its own trim. */
  lemma TrimmedIsFixed(k: string)
    requires Trimmed(k)
    ensures Trim(k) == k
  {
  }

  /** What `mkfile` writes (the text plus an end-of-line made of
      whitespace) trims back to the trimmed text. */
  lemma TrimAfterAppend(k: string, w: string)
    requires AllSpace(w)
    ensures Trim(k + w) == Trim(k)
  {
    TrimEndIgnoresSpaceSuffix(k, w);
  }

  function DigitChar(d: nat): char
    requires d < 10
  {
    "0123456789"[d]
  }

  /** Decimal digits of `n`, most significant first, no leading zeros. */
  function NatToDecimal(n: nat): (r: string)
    ensures |r| >= 1
    ensures forall i :: 0 <= i < |r| ==> '0' <= r[i] <= '9'
    ensures n > 0 ==> r[0] != '0'
    decreases n
  {
    if n < 10 then [DigitChar(n)] else NatToDecimal(n / 10) + [DigitChar(n % 10)]
  }

  /** `String(n)` for an integer number. */
  function IntToDecimal(n: int): string
  {
    if n < 0 then "-" + NatToDecimal(-n) else NatToDecimal(n)
  }

  /** `a.join(sep)` over strings. */
  function JoinWith(parts: seq<string>, sep: string): string
    decreases |parts|
  {
    if |parts| == 0 then ""
    else if |parts| == 1 then parts[0]
    else parts[0] + sep + JoinWith(parts[1..], sep)
  }
}
