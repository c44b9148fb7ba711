/** `String.prototype.trim` as the organizer uses it: only to ask whether a group
    name is blank. Names themselves are always stored as typed. */
module JsText {

  /** The characters `trim` removes: the ECMAScript WhiteSpace and LineTerminator
      code points (tab, vertical tab, form feed, space, no-break space, byte order
      mark, the Unicode space separators, line feed, carriage return, line and
      paragraph separators). */
  predicate IsWhiteSpace(c: char)
  {
    c == '\t' || c == '\U{000B}' || c == '\U{000C}' || c == ' ' || c == '\n' || c == '\r'
    || c == '\U{00A0}' || c == '\U{FEFF}' || c == '\U{1680}'
    || ('\U{2000}' <= c <= '\U{200A}')
    || c == '\U{2028}' || c == '\U{2029}' || c == '\U{202F}' || c == '\U{205F}' || c == '\U{3000}'
  }

  function TrimStart(s: string): (r: string)
    ensures |r| <= |s| && r == s[|s| - |r|..]
    ensures r != [] ==> !IsWhiteSpace(r[0])
  {
    if s != [] && IsWhiteSpace(s[0]) then TrimStart(s[1..]) else s
  }

  function TrimEnd(s: string): (r: string)
    ensures |r| <= |s| && r == s[..|r|]
    ensures r != [] ==> !IsWhiteSpace(r[|r| - 1])
  {
    if s != [] && IsWhiteSpace(s[|s| - 1]) then TrimEnd(s[..|s| - 1]) else s
  }

  /** Every character `TrimStart` removes is white space. */
  lemma {:induction false} TrimStartRemovesWhiteSpace(s: string)
    ensures forall i | 0 <= i < |s| - |TrimStart(s)| :: IsWhiteSpace(s[i])
  {
    if s != [] && IsWhiteSpace(s[0]) {
      TrimStartRemovesWhiteSpace(s[1..]);
      forall i | 0 < i < |s| - |TrimStart(s)| ensures IsWhiteSpace(s[i]) {
        assert s[i] == s[1..][i - 1];
      }
    }
  }

  /** Every character `TrimEnd` removes is white space. */
  lemma {:induction false} TrimEndRemovesWhiteSpace(s: string)
    ensures forall i | |TrimEnd(s)| <= i < |s| :: IsWhiteSpace(s[i])
  {
    if s != [] && IsWhiteSpace(s[|s| - 1]) {
      TrimEndRemovesWhiteSpace(s[..|s| - 1]);
      forall i | |TrimEnd(s)| <= i < |s| - 1 ensures IsWhiteSpace(s[i]) {
        assert s[i] == s[..|s| - 1][i];
      }
    }
  }

  /** `s.trim()`. */
  function Trim(s: string): string
  {
    TrimEnd(TrimStart(s))
  }

  /** `!s.trim()`: the trimmed string is empty, i.e. falsy. */
  predicate IsBlank(s: string)
  {
    Trim(s) == ""
  }

  /** A string trims to empty exactly when every character of it is white space. */
  lemma {:induction false} BlankIffAllWhiteSpace(s: string)
    ensures IsBlank(s) <==> forall i | 0 <= i < |s| :: IsWhiteSpace(s[i])
  {
    var t := TrimStart(s);
    if forall i | 0 <= i < |s| :: IsWhiteSpace(s[i]) {
      AllWhiteSpaceTrimsStart(s);
    } else {
      var i :| 0 <= i < |s| && !IsWhiteSpace(s[i]);
      TrimStartKeeps(s, i);
      assert t != [];
      assert TrimEnd(t) != [] by {
        if TrimEnd(t) == [] {
          TrimEndEmpty(t);
        }
      }
    }
  }

  lemma {:induction false} AllWhiteSpaceTrimsStart(s: string)
    requires forall i | 0 <= i < |s| :: IsWhiteSpace(s[i])
    ensures TrimStart(s) == ""
  {
    if s != [] {
      AllWhiteSpaceTrimsStart(s[1..]);
    }
  }

  /** `TrimStart` never removes a character that is not white space. */
  lemma {:induction false} TrimStartKeeps(s: string, i: nat)
    requires i < |s| && !IsWhiteSpace(s[i])
    ensures |TrimStart(s)| >= |s| - i
  {
    if s != [] && IsWhiteSpace(s[0]) {
      TrimStartKeeps(s[1..], i - 1);
    }
  }

  /** If `TrimEnd` empties a string, every character of it is white space; in
      particular its first one. */
  lemma {:induction false} TrimEndEmpty(s: string)
    requires s != [] && TrimEnd(s) == []
    ensures IsWhiteSpace(s[0])
  {
    if |s| > 1 {
      TrimEndEmpty(s[..|s| - 1]);
    }
  }
}
