/** Text of the input field and the `trim` the input gate applies to it.
    `String.prototype.trim` removes, from both ends, every code point that
    ECMA-262 classes as WhiteSpace or LineTerminator. */
module Text {

  /** WhiteSpace (TAB, VT, FF, ZWNBSP and the Unicode "Zs" space separators)
      and LineTerminator (LF, CR, LS, PS), section 12.2 and 12.3 of ECMA-262. */
  predicate IsWhitespace(c: char)
  {
    || c == '\t' || c == '\n' || c == '\U{000B}' || c == '\U{000C}' || c == '\r'
    || c == ' ' || c == '\U{00A0}' || c == '\U{1680}'
    || ('\U{2000}' <= c <= '\U{200A}')
    || c == '\U{2028}' || c == '\U{2029}' || c == '\U{202F}' || c == '\U{205F}'
    || c == '\U{3000}' || c == '\U{FEFF}'
  }

  /** Every character of `s` is white space (in particular, the empty text). */
  predicate IsBlank(s: string)
  {
    forall k :: 0 <= k < |s| ==> IsWhitespace(s[k])
  }

  /** Neither end of `s` is white space; such a text is its own trim. */
  predicate IsTrimmed(s: string)
  {
    s == [] || (!IsWhitespace(s[0]) && !IsWhitespace(s[|s| - 1]))
  }

  /** `s` without its leading white space: the longest suffix of `s` that
      does not start with white space. */
  function TrimStart(s: string): (r: string)
    ensures |r| <= |s| && r == s[|s| - |r|..]
    ensures IsBlank(s[..|s| - |r|])
    ensures r == [] || !IsWhitespace(r[0])
    decreases |s|
  {
    if s != [] && IsWhitespace(s[0]) then TrimStart(s[1..]) else s
  }

  /** `s` without its trailing white space: the longest prefix of `s` that
      does not end with white space. */
  function TrimEnd(s: string): (r: string)
    ensures |r| <= |s| && r == s[..|r|]
    ensures IsBlank(s[|r|..])
    ensures r == [] || !IsWhitespace(r[|r| - 1])
    decreases |s|
  {
    if s != [] && IsWhitespace(s[|s| - 1]) then TrimEnd(s[..|s| - 1]) else s
  }

  /** `String.prototype.trim`: the text between the leading and the trailing
      white space. It is empty exactly when the whole text is blank. */
  function Trim(s: string): (r: string)
    ensures IsTrimmed(r)
    ensures r == [] <==> IsBlank(s)
  {
    var t := TrimStart(s);
    assert t != [] ==> s[|s| - |t|] == t[0];
    TrimEnd(t)
  }

  /** Trim only removes white space: the input is the result with blank text
      on either side. */
  lemma TrimSplits(s: string) returns (before: string, after: string)
    ensures s == before + Trim(s) + after
    ensures IsBlank(before) && IsBlank(after)
  {
    var t := TrimStart(s);
    var r := TrimEnd(t);
    before := s[..|s| - |t|];
    after := t[|r|..];
    SplitThree(s, |s| - |t|, t, |r|);
  }

  /** Cutting `s` at `n` and its suffix `t` at `m` splits `s` into three. */
  lemma SplitThree<T>(s: seq<T>, n: nat, t: seq<T>, m: nat)
    requires n <= |s| && t == s[n..] && m <= |t|
    ensures s == s[..n] + t[..m] + t[m..]
  {
    assert s == s[..n] + s[n..];
    assert t == t[..m] + t[m..];
  }

  /** Leading white space in front of a text that does not start with white
      space is exactly what TrimStart removes. */
  lemma {:induction false} TrimStartOfPadded(a: string, t: string)
    requires IsBlank(a)
    requires t == [] || !IsWhitespace(t[0])
    ensures TrimStart(a + t) == t
    decreases |a|
  {
    if a != [] {
      assert (a + t)[1..] == a[1..] + t;
      TrimStartOfPadded(a[1..], t);
    } else {
      assert a + t == t;
    }
  }

  /** Trailing white space behind a text that does not end with white space
      is exactly what TrimEnd removes. */
  lemma {:induction false} TrimEndOfPadded(t: string, b: string)
    requires IsBlank(b)
    requires t == [] || !IsWhitespace(t[|t| - 1])
    ensures TrimEnd(t + b) == t
    decreases |b|
  {
    if b != [] {
      assert (t + b)[..|t + b| - 1] == t + b[..|b| - 1];
      TrimEndOfPadded(t, b[..|b| - 1]);
    } else {
      assert t + b == t;
    }
  }

  /** Trim is determined by the text it keeps: whatever blank text surrounds
      a trimmed text, trimming gives back exactly that text. */
  lemma TrimOfPadded(a: string, t: string, b: string)
    requires IsBlank(a) && IsBlank(b) && IsTrimmed(t)
    ensures Trim(a + t + b) == t
  {
    if t == [] {
      assert IsBlank(a + t + b) by {
        forall k | 0 <= k < |a + t + b| ensures IsWhitespace((a + t + b)[k]) {
          if k < |a| { assert (a + t + b)[k] == a[k]; }
          else { assert (a + t + b)[k] == b[k - |a|]; }
        }
      }
    } else {
      assert a + t + b == a + (t + b);
      TrimStartOfPadded(a, t + b);
      TrimEndOfPadded(t, b);
    }
  }

  /** Trimming twice is trimming once. */
  lemma TrimIdempotent(s: string)
    ensures Trim(Trim(s)) == Trim(s)
  {
    var t := Trim(s);
    assert [] + t + [] == t;
    TrimOfPadded([], t, []);
  }

  /** The text typed as "  Buy milk  " becomes the title "Buy milk". */
  lemma TrimBuyMilk()
    ensures Trim("  Buy milk  ") == "Buy milk"
  {
    assert "  Buy milk  " == "  " + "Buy milk" + "  ";
    TrimOfPadded("  ", "Buy milk", "  ");
  }
}
