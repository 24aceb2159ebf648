/** `ProfileGutterIconProvider`: the profile name on a line of a profile file, as
    `Pattern.compile("name:\\s*(?:\"([^\"]+)\"|([^\\s,]+))").matcher(line).find()` extracts it, and
    the active/inactive marker that follows from it. */
module Gutter {
  import opened Wrappers
  import opened Text
  import Model

  const NameKey: string := "name:"

  /** The two capture groups of the pattern: the quoted name, or the bare name. */
  datatype Groups = Groups(group1: Option<string>, group2: Option<string>)

  /** The pattern matches `line[i..e]` with its `\s*` ending at `w` and capture groups `g`:
      an independent statement of the regular expression, alternative by alternative. */
  predicate IsMatch(line: string, i: nat, w: nat, e: nat, g: Groups) {
    && i + |NameKey| <= w <= e <= |line|
    && line[i..i + |NameKey|] == NameKey
    && (forall t :: i + |NameKey| <= t < w ==> IsRegexSpace(line[t]))
    && (|| (&& w + 2 < e && line[w] == '"' && line[e - 1] == '"'
            && (forall t :: w < t < e - 1 ==> line[t] != '"')
            && g == Groups(Some(line[w + 1..e - 1]), None))
        || (&& w < e
            && (forall t :: w <= t < e ==> !IsRegexSpace(line[t]) && line[t] != ',')
            && g == Groups(None, Some(line[w..e]))))
  }

  /** The end of the greedy `\s*` that starts at `k`. */
  function SkipSpaces(line: string, k: nat): (j: nat)
    requires k <= |line|
    ensures k <= j <= |line|
    ensures forall t :: k <= t < j ==> IsRegexSpace(line[t])
    ensures j == |line| || !IsRegexSpace(line[j])
    decreases |line| - k
  {
    if k == |line| || !IsRegexSpace(line[k]) then k else SkipSpaces(line, k + 1)
  }

  /** The first double quote at or after `k`, or the end of the line. */
  function NextQuote(line: string, k: nat): (j: nat)
    requires k <= |line|
    ensures k <= j <= |line|
    ensures forall t :: k <= t < j ==> line[t] != '"'
    ensures j == |line| || line[j] == '"'
    decreases |line| - k
  {
    if k == |line| || line[k] == '"' then k else NextQuote(line, k + 1)
  }

  /** The end of the greedy `[^\s,]+` that starts at `k`. */
  function RunEnd(line: string, k: nat): (j: nat)
    requires k <= |line|
    ensures k <= j <= |line|
    ensures forall t :: k <= t < j ==> !IsRegexSpace(line[t]) && line[t] != ','
    ensures j == |line| || IsRegexSpace(line[j]) || line[j] == ','
    decreases |line| - k
  {
    if k == |line| || IsRegexSpace(line[k]) || line[k] == ',' then k else RunEnd(line, k + 1)
  }

  /** The match attempt at position `i`, in the engine's order: `\s*` as long as possible (giving
      back spaces cannot help, since both alternatives start with a non-space), then the quoted
      alternative, then the bare one. A match sets exactly one of the two groups, to a non-empty
      string. */
  function MatchAt(line: string, i: nat): (r: Option<Groups>)
    requires i <= |line|
    ensures r.Some? ==>
      || (r.value.group1.Some? && |r.value.group1.value| > 0 && r.value.group2.None?)
      || (r.value.group1.None? && r.value.group2.Some? && |r.value.group2.value| > 0)
  {
    if !(i + |NameKey| <= |line| && line[i..i + |NameKey|] == NameKey) then None
    else
      var k := SkipSpaces(line, i + |NameKey|);
      if k < |line| && line[k] == '"' && k + 1 < NextQuote(line, k + 1) < |line| then
        Some(Groups(Some(line[k + 1..NextQuote(line, k + 1)]), None))
      else if k < |line| && line[k] != ',' then
        Some(Groups(None, Some(line[k..RunEnd(line, k)])))
      else None
  }

  /** Every match the engine reports is a match of the pattern. */
  lemma MatchAtSound(line: string, i: nat)
    requires i <= |line| && MatchAt(line, i).Some?
    ensures exists w, e :: IsMatch(line, i, w, e, MatchAt(line, i).value)
  {
    var k := SkipSpaces(line, i + |NameKey|);
    if k < |line| && line[k] == '"' && k + 1 < NextQuote(line, k + 1) < |line| {
      assert IsMatch(line, i, k, NextQuote(line, k + 1) + 1, MatchAt(line, i).value);
    } else {
      assert IsMatch(line, i, k, RunEnd(line, k), MatchAt(line, i).value);
    }
  }

  /** Any match of the pattern at `i` has its `\s*` end where the greedy one does. */
  lemma MatchStartsAfterAllSpaces(line: string, i: nat, w: nat, e: nat, g: Groups)
    requires IsMatch(line, i, w, e, g)
    ensures w == SkipSpaces(line, i + |NameKey|)
  {
    var k := SkipSpaces(line, i + |NameKey|);
    // The value starts at `w` with a non-space; the greedy run ends at `k` before a non-space.
    assert w < |line| && !IsRegexSpace(line[w]);
    assert k == |line| || !IsRegexSpace(line[k]);
    assert !(w < k) by {
      assert forall t :: i + |NameKey| <= t < k ==> IsRegexSpace(line[t]);
    }
    assert !(k < w) by {
      assert forall t :: i + |NameKey| <= t < w ==> IsRegexSpace(line[t]);
    }
  }

  /** If the pattern can match at `i`, the engine finds a match there. */
  lemma MatchAtComplete(line: string, i: nat, w: nat, e: nat, g: Groups)
    requires IsMatch(line, i, w, e, g)
    ensures MatchAt(line, i).Some?
  {
    MatchStartsAfterAllSpaces(line, i, w, e, g);
    if g.group1.Some? {
      assert NextQuote(line, w + 1) == e - 1;
    }
  }

  /** When the quoted alternative can match, it is the one taken, and its group is the non-empty,
      quote-free text between the quotes. */
  lemma QuotedAlternativeWins(line: string, i: nat, w: nat, e: nat, v: string)
    requires IsMatch(line, i, w, e, Groups(Some(v), None))
    ensures MatchAt(line, i) == Some(Groups(Some(v), None))
    ensures |v| > 0 && '"' !in v
  {
    MatchStartsAfterAllSpaces(line, i, w, e, Groups(Some(v), None));
    assert NextQuote(line, w + 1) == e - 1;
    forall t | 0 <= t < |v| ensures v[t] != '"' {
      assert v[t] == line[w + 1 + t];
    }
  }

  /** The bare alternative takes the longest run of characters that are neither `\s` nor commas. */
  lemma BareNameIsMaximal(line: string, i: nat)
    requires i <= |line| && MatchAt(line, i).Some? && MatchAt(line, i).value.group1.None?
    ensures var k := SkipSpaces(line, i + |NameKey|);
      var v := MatchAt(line, i).value.group2.value;
      && line[k..k + |v|] == v && |v| > 0
      && (forall t :: 0 <= t < |v| ==> !IsRegexSpace(v[t]) && v[t] != ',')
      && (k + |v| == |line| || IsRegexSpace(line[k + |v|]) || line[k + |v|] == ',')
  {
  }

  /** An opening quote without a closing one falls through to the bare alternative, so the name
      then begins with the quote. */
  lemma UnterminatedQuoteFallsThrough(line: string, i: nat)
    requires i + |NameKey| <= |line| && line[i..i + |NameKey|] == NameKey
    requires var k := SkipSpaces(line, i + |NameKey|);
      k < |line| && line[k] == '"' && forall t :: k < t < |line| ==> line[t] != '"'
    ensures MatchAt(line, i).Some? && MatchAt(line, i).value.group1.None?
    ensures MatchAt(line, i).value.group2.value[0] == '"'
  {
    var k := SkipSpaces(line, i + |NameKey|);
    assert NextQuote(line, k + 1) == |line|;
  }

  /** `find()`: the leftmost position from `from` on where the pattern matches. */
  function FindFrom(line: string, from: nat): (r: Option<nat>)
    requires from <= |line|
    ensures r.Some? ==> from <= r.value <= |line| && MatchAt(line, r.value).Some?
    ensures r.Some? ==> forall j :: from <= j < r.value ==> MatchAt(line, j).None?
    ensures r.None? ==> forall j :: from <= j <= |line| ==> MatchAt(line, j).None?
    decreases |line| - from
  {
    if MatchAt(line, from).Some? then Some(from)
    else if from == |line| then None
    else FindFrom(line, from + 1)
  }

  /** `matcher.group(1) ?: matcher.group(2)` after a successful `find()`; None when nothing
      matches. After a successful `find()` the name is never null and never empty. */
  function ProfileName(line: string): (r: Option<string>)
    ensures r.Some? <==> FindFrom(line, 0).Some?
    ensures r.Some? ==> |r.value| > 0
  {
    match FindFrom(line, 0)
    case None => None
    case Some(i) =>
      var g := MatchAt(line, i).value;
      if g.group1.Some? then g.group1 else g.group2
  }

  /** A name is extracted exactly when the pattern matches somewhere, and it is the group of the
      leftmost match: the check for a null name in the source can never fire. */
  lemma ProfileNameIsLeftmostMatch(line: string)
    ensures ProfileName(line).Some? <==> exists i: nat, w: nat, e: nat, g :: IsMatch(line, i, w, e, g)
    ensures ProfileName(line).Some? ==> FindFrom(line, 0).Some?
    ensures ProfileName(line).Some? ==>
      exists w: nat, e: nat, g ::
        && IsMatch(line, FindFrom(line, 0).value, w, e, g)
        && ProfileName(line) == (if g.group1.Some? then g.group1 else g.group2)
  {
    match FindFrom(line, 0)
    case None =>
      if exists i: nat, w: nat, e: nat, g :: IsMatch(line, i, w, e, g) {
        var i: nat, w: nat, e: nat, g :| IsMatch(line, i, w, e, g);
        MatchAtComplete(line, i, w, e, g);
      }
    case Some(i) =>
      MatchAtSound(line, i);
      var g := MatchAt(line, i).value;
      var w, e :| IsMatch(line, i, w, e, g);
  }

  /** The gutter marker of a line. */
  datatype Marker = Marker(active: bool, tooltip: string)

  /** The marker `collectNavigationMarkers` adds for a PSI element: none unless the element is a
      leaf starting its line (`firstLeafOfLine`) in a file named `monorepo-profiles.yaml` and a name
      is found on the line; otherwise active exactly when the name equals the stored active name,
      so a null stored name always gives an inactive marker. */
  function GutterMarker(fileName: string, firstLeafOfLine: bool, line: string, activeName: Option<string>)
    : (r: Option<Marker>)
    ensures r.Some? <==> fileName == Model.ProfileFileName && firstLeafOfLine && ProfileName(line).Some?
    ensures r.Some? ==> (r.value.active <==> ProfileName(line) == activeName)
    ensures r.Some? && activeName.None? ==> !r.value.active
    ensures r.Some? ==> r.value.tooltip == (if r.value.active then "Active profile" else "Inactive profile")
  {
    if !firstLeafOfLine || fileName != Model.ProfileFileName then None
    else
      match ProfileName(line)
      case None => None
      case Some(profileName) =>
        var isActive := activeName.Some? && profileName == activeName.value;
        Some(Marker(isActive, if isActive then "Active profile" else "Inactive profile"))
  }

  /** A quoted name keeps its inner spaces. */
  lemma QuotedNameExample()
    ensures ProfileName("- name: \"Web App\"") == Some("Web App")
  {
    var l := "- name: \"Web App\"";
    assert l[0..5] != NameKey by { assert l[0..5][0] == l[0]; }
    assert l[1..6] != NameKey by { assert l[1..6][0] == l[1]; }
    assert l[2..7] == NameKey;
    assert SkipSpaces(l, 7) == 8;
    assert NextQuote(l, 9) == 16;
    assert l[9..16] == "Web App";
  }

  /** A bare name stops at the first comma. */
  lemma BareNameExample()
    ensures ProfileName("{name:web, x}") == Some("web")
  {
    var l := "{name:web, x}";
    assert l == "{" + NameKey + "web, x}";
    assert l[0..5] != NameKey by { assert l[0..5][0] == l[0]; }
    assert MatchAt(l, 0).None?;
    assert l[1..6] == NameKey;
    assert SkipSpaces(l, 6) == 6;
    assert RunEnd(l, 6) == 9;
    assert l[6..9] == "web";
  }

  /** Two adjacent quotes are too short for the quoted alternative, so the bare one takes both
      quotes as the name. */
  lemma EmptyQuotesExample()
    ensures ProfileName("name: \"\"") == Some("\"\"")
  {
    var l := "name: \"\"";
    assert l[0..5] == NameKey;
    assert SkipSpaces(l, 5) == 6;
    assert NextQuote(l, 7) == 7;
    assert RunEnd(l, 6) == 8;
    assert l[6..8] == "\"\"";
  }

  /** A key that only starts with `name` gives no name. */
  lemma LongerKeyExample()
    ensures ProfileName("names: web") == None
  {
    var l := "names: web";
    forall j: nat | j <= |l| ensures MatchAt(l, j).None? {
      if j + 5 <= |l| {
        assert l[j..j + 5] != NameKey by {
          assert NameKey[0] == 'n' && NameKey[4] == ':';
          assert l[j..j + 5][0] == l[j] && l[j..j + 5][4] == l[j + 4];
          assert l[j] != 'n' || l[j + 4] != ':';
        }
      }
    }
  }
}
