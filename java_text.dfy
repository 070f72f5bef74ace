/**
 * The java.lang.String operations the loader applies to attribute values and
 * character data: trim, equalsIgnoreCase, toUpperCase, and
 * split("[\\s]*,[\\s]*") for comma-separated tile ids.
 * Case mapping is modelled for ASCII letters only.
 */
module JavaText {
  import opened Results

  // ---------------------------------------------------------------------------
  // trim

  /** String.trim removes every char up to and including U+0020. */
  predicate IsTrimmed(c: char) { c <= ' ' }

  function TrimStart(s: string): (r: string)
    ensures |r| <= |s|
    ensures r == [] || !IsTrimmed(r[0])
    ensures forall j :: 0 <= j < |s| - |r| ==> IsTrimmed(s[j])
  {
    if s != [] && IsTrimmed(s[0]) then TrimStart(s[1..]) else s
  }

  function TrimEnd(s: string): (r: string)
    ensures |r| <= |s| && r == s[..|r|]
    ensures r == [] || !IsTrimmed(r[|r| - 1])
    ensures forall j :: |r| <= j < |s| ==> IsTrimmed(s[j])
  {
    if s != [] && IsTrimmed(s[|s| - 1]) then TrimEnd(s[..|s| - 1]) else s
  }

  /** How many leading chars String.trim removes. */
  function TrimLead(s: string): (n: nat)
    ensures n <= |s|
  {
    |s| - |TrimStart(s)|
  }

  /** `r` is `s` less its first `n` chars and some last chars, every one removed at or below space. */
  predicate TrimmedFrom(s: string, r: string, n: nat)
  {
    && n + |r| <= |s| && r == s[n..n + |r|]
    && (forall j :: 0 <= j < n ==> IsTrimmed(s[j]))
    && (forall j :: n + |r| <= j < |s| ==> IsTrimmed(s[j]))
  }

  /**
   * String.trim: neither end of the result is a char at or below space, and
   * a string with neither end such a char is returned as it is.
   */
  function Trim(s: string): (r: string)
    ensures r == [] || (!IsTrimmed(r[0]) && !IsTrimmed(r[|r| - 1]))
    ensures s == [] || (!IsTrimmed(s[0]) && !IsTrimmed(s[|s| - 1])) ==> r == s
  {
    TrimEnd(TrimStart(s))
  }

  /**
   * What trim removes: the result is the slice of `s` after its first
   * TrimLead(s) chars, and every char cut from either end is at or below space.
   */
  lemma TrimIsSlice(s: string)
    ensures TrimmedFrom(s, Trim(s), TrimLead(s))
  {
    var t := TrimStart(s);
    TrimStartIsSuffix(s);
    CutBothEnds(s, t, TrimEnd(t), |s| - |t|);
  }

  /** The leading trim keeps a suffix. */
  lemma {:induction false} TrimStartIsSuffix(s: string)
    ensures TrimStart(s) == s[|s| - |TrimStart(s)|..]
  {
    if s != [] && IsTrimmed(s[0]) {
      TrimStartIsSuffix(s[1..]);
    }
  }

  /** Cutting `n` chars off the front and then some off the back leaves a slice. */
  lemma CutBothEnds(s: string, t: string, r: string, n: nat)
    requires n + |t| == |s| && t == s[n..] && |r| <= |t| && r == t[..|r|]
    requires forall j :: 0 <= j < n ==> IsTrimmed(s[j])
    requires forall j :: |r| <= j < |t| ==> IsTrimmed(t[j])
    ensures TrimmedFrom(s, r, n)
  {
    assert r == s[n..n + |r|];
    forall j | n + |r| <= j < |s| ensures IsTrimmed(s[j]) {
      assert s[j] == t[j - n];
    }
  }

  // ---------------------------------------------------------------------------
  // case

  function ToLowerAscii(c: char): char
  {
    if 'A' <= c <= 'Z' then c - 'A' + 'a' else c
  }

  function ToUpperAscii(c: char): char
  {
    if 'a' <= c <= 'z' then c - 'a' + 'A' else c
  }

  predicate IsLowerAscii(c: char) { 'a' <= c <= 'z' }

  /** String.equalsIgnoreCase, for ASCII letters. */
  predicate EqualsIgnoreCase(a: string, b: string)
  {
    |a| == |b| && forall i :: 0 <= i < |a| ==> ToLowerAscii(a[i]) == ToLowerAscii(b[i])
  }

  /**
   * String.toUpperCase, for ASCII letters: the string equal to `s` ignoring
   * case that has no lower-case letter left.
   */
  function UpperCase(s: string): (r: string)
    ensures EqualsIgnoreCase(s, r)
    ensures forall i :: 0 <= i < |r| ==> !IsLowerAscii(r[i])
  {
    seq(|s|, i requires 0 <= i < |s| => ToUpperAscii(s[i]))
  }

  /** Upper-casing is the only such string: equal ignoring case and free of lower-case letters. */
  lemma UpperCaseUnique(s: string, r: string)
    requires EqualsIgnoreCase(s, r) && forall i :: 0 <= i < |r| ==> !IsLowerAscii(r[i])
    ensures r == UpperCase(s)
  {
    var u := UpperCase(s);
    forall i | 0 <= i < |s| ensures r[i] == u[i] {
      assert ToLowerAscii(s[i]) == ToLowerAscii(r[i]);
    }
  }

  /** Two strings are equal ignoring case exactly when their upper-cased forms are equal. */
  lemma UpperCaseDecidesEquality(a: string, b: string)
    ensures EqualsIgnoreCase(a, b) <==> UpperCase(a) == UpperCase(b)
  {
    var ua, ub := UpperCase(a), UpperCase(b);
    if EqualsIgnoreCase(a, b) {
      forall i | 0 <= i < |a| ensures ua[i] == ub[i] {
        assert ToLowerAscii(a[i]) == ToLowerAscii(b[i]);
      }
    }
    if ua == ub {
      assert |a| == |b|;
      forall i | 0 <= i < |a| ensures ToLowerAscii(a[i]) == ToLowerAscii(b[i]) {
        assert ua[i] == ub[i];
      }
    }
  }

  /** `literal.equalsIgnoreCase(v)` where `v` may be null (then false). */
  predicate MatchesIgnoreCase(literal: string, v: Option<string>)
  {
    v.Some? && EqualsIgnoreCase(literal, v.value)
  }

  // ---------------------------------------------------------------------------
  // split("[\\s]*,[\\s]*")

  /** The regex class `\s`: space, \t, \n, \u000B, \f, \r. */
  predicate IsRegexSpace(c: char)
  {
    c == ' ' || c == '\t' || c == '\n' || c == '\U{000B}' || c == '\U{000C}' || c == '\r'
  }

  /** The text between commas, commas removed; always at least one piece. */
  function Pieces(s: string): (r: seq<string>)
    ensures |r| >= 1
  {
    if s == [] then [""]
    else
      var rest := Pieces(s[1..]);
      if s[0] == ',' then [""] + rest else [[s[0]] + rest[0]] + rest[1..]
  }

  function StripLeadingSpace(t: string): (r: string)
    ensures |r| <= |t|
  {
    if t != [] && IsRegexSpace(t[0]) then StripLeadingSpace(t[1..]) else t
  }

  function StripTrailingSpace(t: string): (r: string)
    ensures |r| <= |t|
  {
    if t != [] && IsRegexSpace(t[|t| - 1]) then StripTrailingSpace(t[..|t| - 1]) else t
  }

  /**
   * A match of `[\s]*,[\s]*` takes the whitespace on both sides of its comma,
   * so every piece loses the whitespace that touches a comma.
   */
  function CommaTokens(p: seq<string>): (r: seq<string>)
    ensures |r| == |p|
  {
    seq(|p|, i requires 0 <= i < |p| =>
      var t := if i > 0 then StripLeadingSpace(p[i]) else p[i];
      if i < |p| - 1 then StripTrailingSpace(t) else t)
  }

  /** String.split with limit 0 drops trailing empty strings. */
  function DropTrailingEmpty(ts: seq<string>): (r: seq<string>)
    ensures |r| <= |ts| && r == ts[..|r|]
    ensures r == [] || r[|r| - 1] != ""
    ensures forall i :: |r| <= i < |ts| ==> ts[i] == ""
  {
    if ts != [] && ts[|ts| - 1] == "" then DropTrailingEmpty(ts[..|ts| - 1]) else ts
  }

  /**
   * `s.split("[\\s]*,[\\s]*")`: with no match the whole string is the only
   * element (so "" gives [""]); otherwise the comma-separated tokens without
   * the trailing empty ones.
   */
  function SplitCsv(s: string): seq<string>
  {
    if ',' !in s then [s] else DropTrailingEmpty(CommaTokens(Pieces(s)))
  }

  /** The tokens joined by single commas, as a writer of the format emits them. */
  function JoinCommas(ts: seq<string>): string
    requires |ts| >= 1
  {
    if |ts| == 1 then ts[0] else ts[0] + "," + JoinCommas(ts[1..])
  }

  /** A token that survives splitting unchanged. */
  predicate PlainToken(t: string)
  {
    t != [] && ',' !in t && !IsRegexSpace(t[0]) && !IsRegexSpace(t[|t| - 1])
  }

  lemma {:induction false} PiecesPlain(t: string)
    requires ',' !in t
    ensures Pieces(t) == [t]
  {
    if t != [] {
      assert ',' !in t[1..] by {
        forall i | 0 <= i < |t[1..]| ensures t[1..][i] != ',' {
          assert t[1..][i] == t[i + 1];
        }
      }
      PiecesPlain(t[1..]);
      assert [t[0]] + t[1..] == t;
    }
  }

  lemma {:induction false} PiecesComma(t: string, x: string)
    requires ',' !in t
    ensures Pieces(t + "," + x) == [t] + Pieces(x)
  {
    if t == [] {
      assert (t + "," + x)[1..] == x;
    } else {
      assert (t + "," + x)[0] == t[0];
      assert (t + "," + x)[1..] == t[1..] + "," + x;
      assert ',' !in t[1..] by {
        forall i | 0 <= i < |t[1..]| ensures t[1..][i] != ',' {
          assert t[1..][i] == t[i + 1];
        }
      }
      PiecesComma(t[1..], x);
      assert [t[0]] + t[1..] == t;
    }
  }

  lemma {:induction false} PiecesJoin(ts: seq<string>)
    requires |ts| >= 1 && forall i :: 0 <= i < |ts| ==> ',' !in ts[i]
    ensures Pieces(JoinCommas(ts)) == ts
  {
    if |ts| == 1 {
      PiecesPlain(ts[0]);
    } else {
      PiecesJoin(ts[1..]);
      PiecesComma(ts[0], JoinCommas(ts[1..]));
    }
  }

  lemma CommaTokensPlain(ts: seq<string>)
    requires forall i :: 0 <= i < |ts| ==> PlainToken(ts[i])
    ensures CommaTokens(ts) == ts
  {
    var c := CommaTokens(ts);
    forall i | 0 <= i < |ts| ensures c[i] == ts[i] {
      assert StripLeadingSpace(ts[i]) == ts[i];
      assert StripTrailingSpace(ts[i]) == ts[i];
    }
  }

  /** Splitting comma-joined plain tokens gives the tokens back. */
  lemma SplitJoin(ts: seq<string>)
    requires |ts| >= 1 && forall i :: 0 <= i < |ts| ==> PlainToken(ts[i])
    ensures SplitCsv(JoinCommas(ts)) == ts
  {
    var s := JoinCommas(ts);
    PiecesJoin(ts);
    if |ts| == 1 {
      assert s == ts[0];
    } else {
      var rest := JoinCommas(ts[1..]);
      assert s == ts[0] + "," + rest;
      assert s[|ts[0]|] == ',';
      assert ',' in s;
      CommaTokensPlain(ts);
      assert PlainToken(ts[|ts| - 1]);
      assert DropTrailingEmpty(ts) == ts;
    }
  }

  /** The joined text starts with the first token's first char and ends with the last token's last. */
  lemma {:induction false} JoinCommasEnds(ts: seq<string>)
    requires |ts| >= 1 && forall i :: 0 <= i < |ts| ==> ts[i] != ""
    ensures |JoinCommas(ts)| > 0
    ensures JoinCommas(ts)[0] == ts[0][0]
    ensures JoinCommas(ts)[|JoinCommas(ts)| - 1] == ts[|ts| - 1][|ts[|ts| - 1]| - 1]
  {
    if |ts| > 1 {
      var rest := ts[1..];
      assert forall i :: 0 <= i < |rest| ==> rest[i] == ts[i + 1];
      JoinCommasEnds(rest);
      var r := JoinCommas(rest);
      var j := ts[0] + "," + r;
      assert JoinCommas(ts) == j;
      assert j[0] == ts[0][0];
      assert j[|j| - 1] == r[|r| - 1];
      assert rest[|rest| - 1] == ts[|ts| - 1];
    }
  }
}
