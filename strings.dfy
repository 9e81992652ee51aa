/**
 * `strings.TrimSpace`: removes leading and trailing white space, where white
 * space is what Go's `unicode.IsSpace` accepts.
 */
module Strings {

  /**
   * Go's `unicode.IsSpace`: within ASCII, tab, line feed, vertical tab,
   * form feed, carriage return and space; beyond, U+0085, U+00A0 and the
   * rest of the Unicode White_Space set.
   */
  predicate IsSpace(c: char) {
    ('\t' <= c <= '\r') || c == ' ' || c == '\U{0085}' || c == '\U{00A0}' || c == '\U{1680}'
    || ('\U{2000}' <= c <= '\U{200A}') || c == '\U{2028}' || c == '\U{2029}'
    || c == '\U{202F}' || c == '\U{205F}' || c == '\U{3000}'
  }

  /** The ASCII and Latin-1 part of the white-space set, written out. */
  lemma IsSpaceLatin1(c: char)
    requires c < '\U{0100}'
    ensures IsSpace(c) <==>
              c == '\t' || c == '\n' || c == '\U{000B}' || c == '\U{000C}' || c == '\r' || c == ' ' ||
              c == '\U{0085}' || c == '\U{00A0}'
  {
  }

  predicate AllSpace(s: string) {
    forall i :: 0 <= i < |s| ==> IsSpace(s[i])
  }

  /** Drops the white space at the front: what remains is a suffix of s that starts with a non-space, if anything. */
  function TrimLeft(s: string): (r: string)
    ensures |r| <= |s| && r == s[|s| - |r|..]
    ensures AllSpace(s[..|s| - |r|])
    ensures r == [] || !IsSpace(r[0])
  {
    if s != [] && IsSpace(s[0]) then
      var r := TrimLeft(s[1..]);
      assert s[1..][|s| - 1 - |r|..] == s[|s| - |r|..];
      assert forall i | 1 <= i < |s| - |r| :: s[i] == s[1..][..|s| - 1 - |r|][i - 1];
      r
    else s
  }

  /** Drops the white space at the back: what remains is a prefix of s that ends with a non-space, if anything. */
  function TrimRight(s: string): (r: string)
    ensures |r| <= |s| && r == s[..|r|]
    ensures AllSpace(s[|r|..])
    ensures r == [] || !IsSpace(r[|r| - 1])
  {
    if s != [] && IsSpace(s[|s| - 1]) then
      var r := TrimRight(s[..|s| - 1]);
      assert s[|r|..] == s[..|s| - 1][|r|..] + [s[|s| - 1]];
      r
    else s
  }

  /** `strings.TrimSpace`: white space removed from both ends. */
  function TrimSpace(s: string): string {
    TrimRight(TrimLeft(s))
  }

  /** The trimmed string is empty exactly when s is white space only. */
  lemma TrimSpaceEmptyIff(s: string)
    ensures TrimSpace(s) == [] <==> AllSpace(s)
  {
    var l := TrimLeft(s);
    EmptyTrimIffAllSpace(s, l, TrimRight(l));
  }

  /** Cutting white space off the front and then the back leaves nothing exactly when s is all white space. */
  lemma EmptyTrimIffAllSpace(s: string, l: string, r: string)
    requires |l| <= |s| && l == s[|s| - |l|..] && AllSpace(s[..|s| - |l|]) && (l == [] || !IsSpace(l[0]))
    requires |r| <= |l| && r == l[..|r|] && AllSpace(l[|r|..])
    ensures r == [] <==> AllSpace(s)
  {
    if r == [] {
      assert l[|r|..] == l;
      AllSpaceSplit(s, |s| - |l|);
    } else {
      assert r[0] == l[0] == s[|s| - |l|];
    }
  }

  lemma AllSpaceSplit(s: string, k: nat)
    requires k <= |s| && AllSpace(s[..k]) && AllSpace(s[k..])
    ensures AllSpace(s)
  {
    forall i | 0 <= i < |s| ensures IsSpace(s[i]) {
      if i < k {
        assert s[i] == s[..k][i];
      } else {
        assert s[i] == s[k..][i - k];
      }
    }
  }

  /**
   * The trimmed string is the stretch of s between its leading and its
   * trailing white space.
   */
  lemma TrimSpaceIsInfix(s: string) returns (i: nat)
    ensures var r := TrimSpace(s);
            i + |r| <= |s| && r == s[i..i + |r|] && AllSpace(s[..i]) && AllSpace(s[i + |r|..])
  {
    var l := TrimLeft(s);
    i := |s| - |l|;
    InfixOfTrims(s, l, TrimRight(l));
  }

  /** A non-empty trimmed string starts and ends with a character that is not white space. */
  lemma TrimSpaceEnds(s: string)
    ensures var r := TrimSpace(s);
            r != [] ==> !IsSpace(r[0]) && !IsSpace(r[|r| - 1])
  {
    var l := TrimLeft(s);
    var r := TrimRight(l);
    assert r != [] ==> r[0] == l[0];
  }

  /** A prefix r of a suffix l of s, with only white space cut off each time, sits in s between white space. */
  lemma InfixOfTrims(s: string, l: string, r: string)
    requires |l| <= |s| && l == s[|s| - |l|..] && AllSpace(s[..|s| - |l|])
    requires |r| <= |l| && r == l[..|r|] && AllSpace(l[|r|..])
    ensures var i := |s| - |l|;
            r == s[i..i + |r|] && AllSpace(s[i + |r|..])
  {
    var i := |s| - |l|;
    assert s[i + |r|..] == l[|r|..];
  }
}
