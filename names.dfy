/** Player names: whitespace normalisation, the length and character rules,
    and the moderation blocklist (api/leaderboard.js, lines 1-19 and 26-40). */
module Names {
  import opened Wrappers

  const MAX_NAME_LENGTH: nat := 16
  const MIN_NAME_LENGTH: nat := 2

  /** Substrings that make a name unacceptable once it is lower-cased. */
  const BANNED_TERMS: seq<string> := [
    "fan", "fitta", "hora", "kuk", "cp", "idiot", "jävla",
    "fuck", "shit", "bitch", "nigger", "retard", "naz"
  ]

  // ---------------------------------------------------------------------
  // Normalisation (api/leaderboard.js, lines 26-30): whitespace runs become
  // one space, then both ends are trimmed
  // ---------------------------------------------------------------------

  /** The characters the pattern `\s` matches and `trim` removes. */
  predicate IsWhitespace(c: char) {
    c == ' ' || ('\t' <= c <= '\r') || c == '\U{00A0}' || c == '\U{1680}'
    || ('\U{2000}' <= c <= '\U{200A}') || c == '\U{2028}' || c == '\U{2029}'
    || c == '\U{202F}' || c == '\U{205F}' || c == '\U{3000}' || c == '\U{FEFF}'
  }

  /** Removes the whitespace at the front: what is left is a suffix of `s`
      that is empty or starts with a visible character. */
  function TrimStart(s: string): (r: string)
    ensures |r| <= |s| && r == s[|s| - |r|..]
    ensures forall i :: 0 <= i < |s| - |r| ==> IsWhitespace(s[i])
    ensures r == [] || !IsWhitespace(r[0])
  {
    if |s| > 0 && IsWhitespace(s[0]) then TrimStart(s[1..]) else s
  }

  /** Removes the whitespace at the end: what is left is a prefix of `s`
      that is empty or ends with a visible character. */
  function TrimEnd(s: string): (r: string)
    ensures |r| <= |s| && r == s[..|r|]
    ensures forall i :: |r| <= i < |s| ==> IsWhitespace(s[i])
    ensures r == [] || !IsWhitespace(r[|r| - 1])
  {
    if |s| > 0 && IsWhitespace(s[|s| - 1]) then TrimEnd(s[..|s| - 1]) else s
  }

  /** Whitespace removed at both ends (line 29). */
  function Trim(s: string): string {
    TrimEnd(TrimStart(s))
  }

  /** Every maximal run of whitespace becomes one space (line 28). */
  function CollapseWhitespace(s: string): string
    decreases |s|
  {
    if s == [] then []
    else if IsWhitespace(s[0]) then
      " " + CollapseWhitespace(TrimStart(s[1..]))
    else [s[0]] + CollapseWhitespace(s[1..])
  }

  /** The name normalisation of lines 26-30; an absent or falsy name counts as
      the empty string. */
  function NormalizeName(name: Option<string>): string {
    var raw := if name.Some? then name.value else "";
    Trim(CollapseWhitespace(raw))
  }

  /** Whitespace, if any, is a single plain space between visible characters. */
  predicate IsCollapsed(s: string) {
    && (forall i :: 0 <= i < |s| && IsWhitespace(s[i]) ==> s[i] == ' ')
    && (forall i :: 0 <= i < |s| - 1 && IsWhitespace(s[i]) ==> !IsWhitespace(s[i + 1]))
  }

  /** The shape of a normalised name: collapsed, and no whitespace at either end. */
  predicate IsNormal(s: string) {
    IsCollapsed(s) && (|s| > 0 ==> !IsWhitespace(s[0]) && !IsWhitespace(s[|s| - 1]))
  }

  /** The visible characters of `s`, in order. */
  function Visible(s: string): string {
    if s == [] then [] else (if IsWhitespace(s[0]) then [] else [s[0]]) + Visible(s[1..])
  }

  lemma {:induction false} VisibleAppend(a: string, b: string)
    ensures Visible(a + b) == Visible(a) + Visible(b)
  {
    if a == [] {
      assert a + b == b;
    } else {
      assert (a + b)[1..] == a[1..] + b;
      VisibleAppend(a[1..], b);
    }
  }

  /** Trimming the front removes whitespace only. */
  lemma {:induction false} TrimStartKeepsVisible(s: string)
    ensures Visible(TrimStart(s)) == Visible(s)
  {
    if |s| > 0 && IsWhitespace(s[0]) {
      TrimStartKeepsVisible(s[1..]);
    }
  }

  /** Trimming the end removes whitespace only. */
  lemma {:induction false} TrimEndKeepsVisible(s: string)
    ensures Visible(TrimEnd(s)) == Visible(s)
  {
    if |s| > 0 && IsWhitespace(s[|s| - 1]) {
      var init := s[..|s| - 1];
      TrimEndKeepsVisible(init);
      assert s == init + [s[|s| - 1]];
      VisibleAppend(init, [s[|s| - 1]]);
    }
  }

  /** Collapsing removes or replaces whitespace only. */
  lemma {:induction false} CollapseKeepsVisible(s: string)
    ensures Visible(CollapseWhitespace(s)) == Visible(s)
    decreases |s|
  {
    if s == [] {
    } else if IsWhitespace(s[0]) {
      var rest := TrimStart(s[1..]);
      CollapseKeepsVisible(rest);
      TrimStartKeepsVisible(s[1..]);
      VisibleAppend(" ", CollapseWhitespace(rest));
    } else {
      CollapseKeepsVisible(s[1..]);
      VisibleAppend([s[0]], CollapseWhitespace(s[1..]));
    }
  }

  /** The first character survives collapsing exactly when it is visible. */
  lemma CollapseHead(s: string)
    requires s != []
    ensures CollapseWhitespace(s) != []
    ensures IsWhitespace(s[0]) ==> CollapseWhitespace(s)[0] == ' '
    ensures !IsWhitespace(s[0]) ==> CollapseWhitespace(s)[0] == s[0]
  {
  }

  lemma {:induction false} CollapseIsCollapsed(s: string)
    ensures IsCollapsed(CollapseWhitespace(s))
    decreases |s|
  {
    if s == [] {
    } else if IsWhitespace(s[0]) {
      var rest := TrimStart(s[1..]);
      CollapseIsCollapsed(rest);
      var c := CollapseWhitespace(rest);
      if rest != [] {
        CollapseHead(rest);
      }
      assert CollapseWhitespace(s) == " " + c;
    } else {
      CollapseIsCollapsed(s[1..]);
      var c := CollapseWhitespace(s[1..]);
      assert CollapseWhitespace(s) == [s[0]] + c;
    }
  }

  lemma SliceOfCollapsed(s: string, i: nat, j: nat)
    requires i <= j <= |s| && IsCollapsed(s)
    ensures IsCollapsed(s[i..j])
  {
    var t := s[i..j];
    forall k | 0 <= k < |t| - 1 && IsWhitespace(t[k])
      ensures !IsWhitespace(t[k + 1])
    {
      assert t[k] == s[i + k] && t[k + 1] == s[i + k + 1];
    }
  }

  /** Trimming a collapsed string puts it in normal form. */
  lemma TrimCollapsedIsNormal(c: string)
    requires IsCollapsed(c)
    ensures IsNormal(Trim(c))
  {
    var a := TrimStart(c);
    SliceOfCollapsed(c, |c| - |a|, |c|);
    var b := TrimEnd(a);
    SliceOfCollapsed(a, 0, |b|);
    if b != [] {
      assert b[0] == a[0];
    }
  }

  /** Normalisation always yields a string in normal form, and an absent or
      empty name gives the empty name. */
  lemma NormalizeNameIsNormal(name: Option<string>)
    ensures IsNormal(NormalizeName(name))
    ensures name.None? || name == Some("") ==> NormalizeName(name) == ""
  {
    var raw := if name.Some? then name.value else "";
    CollapseIsCollapsed(raw);
    TrimCollapsedIsNormal(CollapseWhitespace(raw));
  }

  /** Normalisation only changes whitespace: the visible characters are kept, in order. */
  lemma NormalizeNameKeepsVisible(raw: string)
    ensures Visible(NormalizeName(Some(raw))) == Visible(raw)
  {
    var c := CollapseWhitespace(raw);
    CollapseKeepsVisible(raw);
    TrimStartKeepsVisible(c);
    TrimEndKeepsVisible(TrimStart(c));
  }

  lemma {:induction false} CollapseFixesCollapsed(s: string)
    requires IsCollapsed(s)
    ensures CollapseWhitespace(s) == s
    decreases |s|
  {
    if s != [] {
      var tail := s[1..];
      SliceOfCollapsed(s, 1, |s|);
      CollapseFixesCollapsed(tail);
      if IsWhitespace(s[0]) {
        assert s[0] == ' ';
        assert tail == [] || !IsWhitespace(tail[0]);
        assert TrimStart(tail) == tail;
        assert CollapseWhitespace(s) == " " + CollapseWhitespace(tail);
      } else {
        assert CollapseWhitespace(s) == [s[0]] + CollapseWhitespace(tail);
      }
      assert s == [s[0]] + tail;
    }
  }

  /** A name already in normal form is left as it is. */
  lemma NormalizeNameFixesNormal(s: string)
    requires IsNormal(s)
    ensures NormalizeName(Some(s)) == s
  {
    CollapseFixesCollapsed(s);
    assert TrimStart(s) == s;
    assert TrimEnd(s) == s;
  }

  /** Normalising twice gives the same result as normalising once. */
  lemma NormalizeNameIdempotent(name: Option<string>)
    ensures NormalizeName(Some(NormalizeName(name))) == NormalizeName(name)
  {
    NormalizeNameIsNormal(name);
    NormalizeNameFixesNormal(NormalizeName(name));
  }

  // ---------------------------------------------------------------------
  // Words: the reference meaning of normalisation
  // ---------------------------------------------------------------------

  /** `s` is non-empty and starts with a visible character. */
  predicate StartsVisible(s: string) {
    s != [] && !IsWhitespace(s[0])
  }

  /** Puts the visible character `c` in front of the words `ws`: it joins the
      first word when `glued` (nothing separates them), else forms a word. */
  function ConsChar(c: char, ws: seq<string>, glued: bool): seq<string> {
    if glued && ws != [] then [[c] + ws[0]] + ws[1..] else [[c]] + ws
  }

  /** The words of `s`: its maximal runs of visible characters, in order. */
  function Words(s: string): seq<string> {
    if s == [] then []
    else if IsWhitespace(s[0]) then Words(s[1..])
    else ConsChar(s[0], Words(s[1..]), StartsVisible(s[1..]))
  }

  /** The words separated by single spaces. */
  function Join(ws: seq<string>): string {
    if ws == [] then []
    else if |ws| == 1 then ws[0]
    else ws[0] + " " + Join(ws[1..])
  }

  lemma {:induction false} WordsTrimStart(s: string)
    ensures Words(TrimStart(s)) == Words(s)
  {
    if |s| > 0 && IsWhitespace(s[0]) {
      WordsTrimStart(s[1..]);
    }
  }

  /** Trailing whitespace adds no word. */
  lemma {:induction false} WordsSnocWhitespace(s: string, c: char)
    requires IsWhitespace(c)
    ensures Words(s + [c]) == Words(s)
  {
    if s != [] {
      assert (s + [c])[1..] == s[1..] + [c];
      WordsSnocWhitespace(s[1..], c);
      assert StartsVisible(s[1..] + [c]) == StartsVisible(s[1..]);
    }
  }

  lemma {:induction false} WordsTrimEnd(s: string)
    ensures Words(TrimEnd(s)) == Words(s)
  {
    if |s| > 0 && IsWhitespace(s[|s| - 1]) {
      var init := s[..|s| - 1];
      WordsTrimEnd(init);
      assert s == init + [s[|s| - 1]];
      WordsSnocWhitespace(init, s[|s| - 1]);
    }
  }

  /** Collapsing whitespace keeps the words. */
  lemma {:induction false} CollapseKeepsWords(s: string)
    ensures Words(CollapseWhitespace(s)) == Words(s)
    decreases |s|
  {
    if s == [] {
    } else if IsWhitespace(s[0]) {
      var rest := TrimStart(s[1..]);
      CollapseKeepsWords(rest);
      WordsTrimStart(s[1..]);
      assert (" " + CollapseWhitespace(rest))[1..] == CollapseWhitespace(rest);
    } else {
      var tail := s[1..];
      CollapseKeepsWords(tail);
      if tail != [] {
        CollapseHead(tail);
      }
      assert ([s[0]] + CollapseWhitespace(tail))[1..] == CollapseWhitespace(tail);
    }
  }

  lemma JoinConsFirst(c: char, ws: seq<string>)
    requires ws != []
    ensures Join([[c] + ws[0]] + ws[1..]) == [c] + Join(ws)
  {
    var vs := [[c] + ws[0]] + ws[1..];
    assert vs[1..] == ws[1..];
  }

  /** A normal string followed by a visible character: its tail is normal. */
  lemma NormalTailGlued(t: string)
    requires IsNormal(t) && |t| > 1 && !IsWhitespace(t[1])
    ensures IsNormal(t[1..])
  {
    SliceOfCollapsed(t, 1, |t|);
  }

  /** A normal string whose second character is whitespace: that is a single
      space, followed by a non-empty normal string. */
  lemma NormalTailSpaced(t: string)
    requires IsNormal(t) && |t| > 1 && IsWhitespace(t[1])
    ensures |t| > 2 && t[1] == ' ' && IsNormal(t[2..])
  {
    SliceOfCollapsed(t, 2, |t|);
  }

  lemma JoinConsWord(c: char, ws: seq<string>)
    requires ws != []
    ensures Join([[c]] + ws) == [c] + " " + Join(ws)
  {
    var vs := [[c]] + ws;
    assert vs[1..] == ws;
  }

  /** A string in normal form is its words joined by single spaces. */
  lemma {:induction false} NormalIsJoinedWords(t: string)
    requires IsNormal(t)
    ensures t == Join(Words(t))
    ensures t != [] ==> Words(t) != []
    decreases |t|
  {
    if t != [] {
      var tail := t[1..];
      if tail == [] {
        assert Words(t) == [[t[0]]];
      } else if !IsWhitespace(tail[0]) {
        NormalTailGlued(t);
        NormalIsJoinedWords(tail);
        JoinConsFirst(t[0], Words(tail));
        assert t == [t[0]] + tail;
      } else {
        NormalTailSpaced(t);
        var rest := t[2..];
        assert tail[1..] == rest;
        NormalIsJoinedWords(rest);
        assert Words(t) == [[t[0]]] + Words(rest);
        JoinConsWord(t[0], Words(rest));
        assert t == [t[0]] + " " + rest;
      }
    }
  }

  /** Normalisation keeps the words of the name. */
  lemma NormalizeNameKeepsWords(raw: string)
    ensures Words(NormalizeName(Some(raw))) == Words(raw)
  {
    var c := CollapseWhitespace(raw);
    CollapseKeepsWords(raw);
    WordsTrimStart(c);
    WordsTrimEnd(TrimStart(c));
  }

  /** Normalisation is the words of the name separated by single spaces: every
      whitespace run between two words becomes exactly one space, and none
      remains at either end. */
  lemma NormalizeNameJoinsWords(raw: string)
    ensures NormalizeName(Some(raw)) == Join(Words(raw))
  {
    NormalizeNameIsNormal(Some(raw));
    NormalizeNameKeepsWords(raw);
    NormalIsJoinedWords(NormalizeName(Some(raw)));
  }

  // ---------------------------------------------------------------------
  // Validation (lines 37-40): length 2..16, then the name-character pattern
  // ---------------------------------------------------------------------

  /** An ASCII letter or digit, one of å, ä, ö in either case, a space, an
      underscore or a hyphen (the character class of line 39). */
  predicate IsNameChar(c: char) {
    ('a' <= c <= 'z') || ('A' <= c <= 'Z') || ('0' <= c <= '9')
    || c == 'å' || c == 'ä' || c == 'ö' || c == 'Å' || c == 'Ä' || c == 'Ö'
    || c == ' ' || c == '_' || c == '-'
  }

  /** The anchored pattern of line 39: one or more name characters and nothing else. */
  predicate MatchesNamePattern(s: string) {
    |s| > 0 && IsNameChar(s[0]) && (|s| == 1 || MatchesNamePattern(s[1..]))
  }

  /** Name validity (lines 37-40): the length test first, then the pattern. */
  predicate IsValidName(name: string) {
    if |name| < MIN_NAME_LENGTH || |name| > MAX_NAME_LENGTH then false
    else MatchesNamePattern(name)
  }

  lemma {:induction false} MatchesNamePatternIff(s: string)
    ensures MatchesNamePattern(s) <==> |s| > 0 && forall i :: 0 <= i < |s| ==> IsNameChar(s[i])
  {
    if |s| > 1 {
      MatchesNamePatternIff(s[1..]);
      if forall i :: 1 <= i < |s| ==> IsNameChar(s[i]) {
        assert forall i :: 0 <= i < |s| - 1 ==> IsNameChar(s[1..][i]);
      }
    }
  }

  /** A name is valid exactly when it has 2 to 16 characters, each from the class. */
  lemma ValidNameIff(name: string)
    ensures IsValidName(name) <==>
      MIN_NAME_LENGTH <= |name| <= MAX_NAME_LENGTH && forall i :: 0 <= i < |name| ==> IsNameChar(name[i])
  {
    MatchesNamePatternIff(name);
  }

  // ---------------------------------------------------------------------
  // Moderation (lines 32-35): does any banned term occur in the lower-cased name?
  // ---------------------------------------------------------------------

  /** Lower-casing of the ASCII and Latin-1 capitals; other characters are kept. */
  function LowerChar(c: char): char {
    if ('A' <= c <= 'Z') || ('\U{00C0}' <= c <= '\U{00DE}' && c != '\U{00D7}') then
      (c as int + 32) as char
    else c
  }

  function Lower(s: string): string {
    seq(|s|, i requires 0 <= i < |s| => LowerChar(s[i]))
  }

  /** `t` occurs somewhere in `s` (line 34). */
  predicate Contains(s: string, t: string)
    decreases |s|
  {
    |t| <= |s| && (s[..|t|] == t || (|s| > 0 && Contains(s[1..], t)))
  }

  /** `t` occurs in `s` starting at index `i`. */
  predicate OccursAt(s: string, t: string, i: int) {
    0 <= i <= |s| - |t| && s[i..i + |t|] == t
  }

  /** Some term of `terms` occurs in `s` (line 34). */
  predicate AnyTermIn(terms: seq<string>, s: string) {
    |terms| > 0 && (Contains(s, terms[0]) || AnyTermIn(terms[1..], s))
  }

  /** The moderation check of lines 32-35. */
  predicate HasBlockedTerms(name: string) {
    AnyTermIn(BANNED_TERMS, Lower(name))
  }

  lemma {:induction false} ContainsIff(s: string, t: string)
    ensures Contains(s, t) <==> exists i :: OccursAt(s, t, i)
    decreases |s|
  {
    if |t| <= |s| && s[..|t|] != t && |s| > 0 {
      ContainsIff(s[1..], t);
      if exists i :: OccursAt(s[1..], t, i) {
        var i :| OccursAt(s[1..], t, i);
        assert s[i + 1..i + 1 + |t|] == s[1..][i..i + |t|];
        assert OccursAt(s, t, i + 1);
      }
      if exists i :: OccursAt(s, t, i) {
        var i :| OccursAt(s, t, i);
        assert i != 0;
        assert s[1..][i - 1..i - 1 + |t|] == s[i..i + |t|];
        assert OccursAt(s[1..], t, i - 1);
      }
    } else if |t| <= |s| && s[..|t|] == t {
      assert OccursAt(s, t, 0);
    }
  }

  lemma {:induction false} AnyTermInIff(terms: seq<string>, s: string)
    ensures AnyTermIn(terms, s) <==> exists k :: 0 <= k < |terms| && Contains(s, terms[k])
  {
    if |terms| > 0 {
      AnyTermInIff(terms[1..], s);
      if exists k :: 0 <= k < |terms| && Contains(s, terms[k]) {
        var k :| 0 <= k < |terms| && Contains(s, terms[k]);
        if k > 0 {
          assert terms[1..][k - 1] == terms[k];
        }
      }
    }
  }

  /** A name is blocked exactly when some banned term occurs, anywhere, in its
      lower-cased form: matching is by substring, not by word. */
  lemma HasBlockedTermsIff(name: string)
    ensures HasBlockedTerms(name) <==>
      exists t, i :: t in BANNED_TERMS && OccursAt(Lower(name), t, i)
  {
    AnyTermInIff(BANNED_TERMS, Lower(name));
    if HasBlockedTerms(name) {
      var k :| 0 <= k < |BANNED_TERMS| && Contains(Lower(name), BANNED_TERMS[k]);
      ContainsIff(Lower(name), BANNED_TERMS[k]);
    }
    if exists t, i :: t in BANNED_TERMS && OccursAt(Lower(name), t, i) {
      var t, i :| t in BANNED_TERMS && OccursAt(Lower(name), t, i);
      ContainsIff(Lower(name), t);
      var k :| 0 <= k < |BANNED_TERMS| && BANNED_TERMS[k] == t;
    }
  }

  /** Lower-casing commutes with slicing. */
  lemma LowerSlice(s: string, a: nat, b: nat)
    requires a <= b <= |s|
    ensures Lower(s)[a..b] == Lower(s[a..b])
  {
  }

  /** Containment is transitive. */
  lemma ContainsTrans(a: string, b: string, c: string)
    requires Contains(a, b) && Contains(b, c)
    ensures Contains(a, c)
  {
    ContainsIff(a, b);
    ContainsIff(b, c);
    ContainsIff(a, c);
    var j :| OccursAt(a, b, j);
    var i :| OccursAt(b, c, i);
    forall k | 0 <= k < |c|
      ensures a[j + i + k] == c[k]
    {
      assert c[k] == b[i + k] == a[j + i + k];
    }
    assert a[j + i..j + i + |c|] == c;
    assert OccursAt(a, c, j + i);
  }

  /** Lower-casing keeps containment. */
  lemma LowerContains(outer: string, inner: string)
    requires Contains(outer, inner)
    ensures Contains(Lower(outer), Lower(inner))
  {
    ContainsIff(outer, inner);
    ContainsIff(Lower(outer), Lower(inner));
    var j :| OccursAt(outer, inner, j);
    LowerSlice(outer, j, j + |inner|);
    assert OccursAt(Lower(outer), Lower(inner), j);
  }

  /** A string containing one that holds a term holds that term too. */
  lemma {:induction false} AnyTermInSuperstring(terms: seq<string>, s: string, u: string)
    requires AnyTermIn(terms, s) && Contains(u, s)
    ensures AnyTermIn(terms, u)
  {
    if Contains(s, terms[0]) {
      ContainsTrans(u, s, terms[0]);
    } else {
      AnyTermInSuperstring(terms[1..], s, u);
    }
  }

  /** Any name that contains a blocked name is itself blocked. */
  lemma BlockedInsideLongerName(inner: string, outer: string)
    requires HasBlockedTerms(inner) && Contains(outer, inner)
    ensures HasBlockedTerms(outer)
  {
    LowerContains(outer, inner);
    AnyTermInSuperstring(BANNED_TERMS, Lower(inner), Lower(outer));
  }

  lemma LowerIdempotent(s: string)
    ensures Lower(Lower(s)) == Lower(s)
  {
  }

  /** Under this model's lower-casing, letter case does not matter to either
      check: a name and its lower-cased form are both valid or both invalid,
      both blocked or both allowed. */
  lemma CaseInsensitive(name: string)
    ensures HasBlockedTerms(Lower(name)) == HasBlockedTerms(name)
    ensures IsValidName(Lower(name)) == IsValidName(name)
  {
    LowerIdempotent(name);
    ValidNameIff(name);
    ValidNameIff(Lower(name));
    assert forall i :: 0 <= i < |name| ==> (IsNameChar(Lower(name)[i]) <==> IsNameChar(name[i]));
  }

  // ---------------------------------------------------------------------
  // Worked examples
  // ---------------------------------------------------------------------

  lemma CollapseShortName()
    ensures CollapseWhitespace("  a ") == " a "
  {
    assert TrimStart("") == "";
    assert TrimStart(" ") == TrimStart("");
    assert CollapseWhitespace(" ") == " " + CollapseWhitespace(TrimStart(""));
    assert "a "[1..] == " ";
    assert CollapseWhitespace("a ") == "a" + CollapseWhitespace(" ");
    assert "  a "[1..] == " a " && " a "[1..] == "a ";
    assert TrimStart("a ") == "a ";
    assert TrimStart(" a ") == TrimStart("a ");
    assert CollapseWhitespace("  a ") == " " + CollapseWhitespace(TrimStart(" a "));
  }

  lemma VisibleFirstKept()
    ensures TrimStart("a ") == "a "
  {
  }

  lemma LeadingSpaceTrimmed()
    ensures TrimStart(" a ") == "a "
  {
    assert " a "[1..] == "a ";
    VisibleFirstKept();
  }

  lemma VisibleLastKept()
    ensures TrimEnd("a") == "a"
  {
  }

  lemma TrailingSpaceTrimmed()
    ensures TrimEnd("a ") == "a"
  {
    assert "a "[..1] == "a";
    VisibleLastKept();
  }

  lemma TrimShortName()
    ensures Trim(" a ") == "a"
  {
    LeadingSpaceTrimmed();
    TrailingSpaceTrimmed();
  }

  /** "  a " normalises to "a", which is too short. */
  lemma ShortNameScenario()
    ensures NormalizeName(Some("  a ")) == "a"
    ensures !IsValidName(NormalizeName(Some("  a ")))
  {
    CollapseShortName();
    TrimShortName();
  }

  /** A string holding the `k`-th banned term is blocked. */
  lemma HoldsBannedTerm(s: string, k: nat, i: nat)
    requires k < |BANNED_TERMS| && OccursAt(s, BANNED_TERMS[k], i)
    ensures AnyTermIn(BANNED_TERMS, s)
  {
    ContainsIff(s, BANNED_TERMS[k]);
    AnyTermInIff(BANNED_TERMS, s);
  }

  lemma LowerStefan()
    ensures Lower("Stefan") == "stefan"
  {
  }

  /** "Stefan" contains "fan". */
  lemma StefanBlocked()
    ensures HasBlockedTerms("Stefan")
  {
    LowerStefan();
    assert "stefan"[3..6] == "fan";
    HoldsBannedTerm("stefan", 0, 3);
  }

  lemma LowerEcpa()
    ensures Lower("ECPA") == "ecpa"
  {
  }

  /** "ECPA" contains "cp" once lower-cased. */
  lemma EcpaBlocked()
    ensures HasBlockedTerms("ECPA")
  {
    LowerEcpa();
    assert "ecpa"[1..3] == "cp";
    HoldsBannedTerm("ecpa", 4, 1);
  }

  /** Substring matching over-blocks: "Stefan" contains "fan", "ECPA" contains "cp". */
  lemma OverInclusiveScenario()
    ensures HasBlockedTerms("Stefan")
    ensures HasBlockedTerms("ECPA")
  {
    StefanBlocked();
    EcpaBlocked();
  }
}
