/** Registry slugs: the pattern they must match and the one proposed for a name. */
module Slugs {
  import opened Text

  predicate Alnum(c: char) { 'a' <= c <= 'z' || '0' <= c <= '9' }

  predicate Edge(c: char) { c == '-' || c == '.' || c == '_' }

  predicate SlugChar(c: char) { Alnum(c) || Edge(c) }

  /** `_SLUG_RE.match`: the pattern ends in `$`, which also matches before one
      final newline. */
  predicate IsValidSlug(s: string) {
    && s != "" && Alnum(s[0])
    && forall i | 0 < i < |s| :: SlugChar(s[i]) || (i == |s| - 1 && s[i] == '\n')
  }

  predicate Ascii(c: char) { c < 128 as char }

  function Lower(c: char): char {
    if 'A' <= c <= 'Z' then (c as int + 32) as char else c
  }

  function AsciiLower(s: string): (r: string)
    ensures forall c <- r :: Ascii(c)
  {
    if s == "" then ""
    else (if Ascii(s[0]) then [Lower(s[0])] else "") + AsciiLower(s[1..])
  }

  /** NFKD, then the ASCII characters, lowered. NFKD is the identity on ASCII;
      `decompose` is its table for everything else. */
  function Fold(text: string, decompose: char -> string): (r: string)
    ensures forall c <- r :: Ascii(c)
  {
    if text == "" then ""
    else AsciiLower(if Ascii(text[0]) then [text[0]] else decompose(text[0])) + Fold(text[1..], decompose)
  }

  /** Every run of other characters becomes one hyphen. */
  function Hyphenate(s: string, inRun: bool): string {
    if s == "" then ""
    else if SlugChar(s[0]) then [s[0]] + Hyphenate(s[1..], false)
    else (if inRun then "" else "-") + Hyphenate(s[1..], true)
  }

  /** Every run of hyphens becomes one. */
  function Collapse(s: string, inRun: bool): string {
    if s == "" then ""
    else if s[0] != '-' then [s[0]] + Collapse(s[1..], false)
    else (if inRun then "" else "-") + Collapse(s[1..], true)
  }

  function StripLeft(s: string): string {
    if s != "" && Edge(s[0]) then StripLeft(s[1..]) else s
  }

  function StripRight(s: string): string {
    if s != "" && Edge(s[|s| - 1]) then StripRight(s[..|s| - 1]) else s
  }

  function NormalizeSlug(text: string, decompose: char -> string): string {
    var cleaned := StripRight(StripLeft(Collapse(Hyphenate(Fold(text, decompose), false), false)));
    if cleaned == "" then "repo" else cleaned
  }

  /** Slug characters, no two hyphens together, alphanumeric at both ends. */
  predicate Normal(s: string) {
    && s != "" && Alnum(s[0]) && Alnum(s[|s| - 1])
    && (forall c <- s :: SlugChar(c))
    && NoDoubleHyphen(s)
  }

  predicate NoDoubleHyphen(s: string) {
    forall i | 0 <= i < |s| - 1 :: !(s[i] == '-' && s[i + 1] == '-')
  }

  lemma {:induction false} HyphenateChars(s: string, inRun: bool)
    ensures forall c <- Hyphenate(s, inRun) :: SlugChar(c)
  {
    if s != "" { HyphenateChars(s[1..], !SlugChar(s[0])); }
  }

  lemma {:induction false} CollapseChars(s: string, inRun: bool)
    requires forall c <- s :: SlugChar(c)
    ensures var r := Collapse(s, inRun);
            && (forall c <- r :: SlugChar(c)) && NoDoubleHyphen(r)
            && (inRun && r != "" ==> r[0] != '-')
  {
    if s != "" {
      var hyphen := s[0] == '-';
      var rest := Collapse(s[1..], hyphen);
      CollapseChars(s[1..], hyphen);
      assert SlugChar(s[0]);
    }
  }

  lemma {:induction false} StripLeftShape(s: string)
    requires NoDoubleHyphen(s)
    ensures var r := StripLeft(s);
            && (forall c <- r :: c in s) && NoDoubleHyphen(r) && (r != "" ==> !Edge(r[0]))
  {
    if s != "" && Edge(s[0]) {
      assert NoDoubleHyphen(s[1..]);
      StripLeftShape(s[1..]);
    }
  }

  lemma {:induction false} StripRightShape(s: string)
    requires NoDoubleHyphen(s) && (s != "" ==> !Edge(s[0]))
    ensures var r := StripRight(s);
            && (forall c <- r :: c in s) && NoDoubleHyphen(r) && (r != "" ==> !Edge(r[0]) && !Edge(r[|r| - 1]))
  {
    if s != "" && Edge(s[|s| - 1]) {
      var t := s[..|s| - 1];
      forall i | 0 <= i < |t| - 1 ensures !(t[i] == '-' && t[i + 1] == '-') {
        assert t[i] == s[i] && t[i + 1] == s[i + 1];
      }
      StripRightShape(t);
    }
  }

  /** Whatever the name, the proposal is in normal form. */
  lemma ProposalIsNormal(text: string, decompose: char -> string)
    ensures Normal(NormalizeSlug(text, decompose))
  {
    var h := Hyphenate(Fold(text, decompose), false);
    HyphenateChars(Fold(text, decompose), false);
    CollapseChars(h, false);
    StripLeftShape(Collapse(h, false));
    StripRightShape(StripLeft(Collapse(h, false)));
    var cleaned := StripRight(StripLeft(Collapse(h, false)));
    if cleaned != "" {
      assert cleaned[0] in cleaned && cleaned[|cleaned| - 1] in cleaned;
    }
  }

  lemma {:induction false} FoldNormal(s: string, decompose: char -> string)
    requires forall c <- s :: SlugChar(c)
    ensures Fold(s, decompose) == s
  {
    if s != "" {
      FoldNormal(s[1..], decompose);
      assert SlugChar(s[0]);
      assert AsciiLower([s[0]]) == [s[0]] + AsciiLower([]);
      assert [s[0]] + s[1..] == s;
    }
  }

  lemma {:induction false} HyphenateNormal(s: string)
    requires forall c <- s :: SlugChar(c)
    ensures Hyphenate(s, false) == s
  {
    if s != "" {
      assert SlugChar(s[0]);
      HyphenateNormal(s[1..]);
      assert [s[0]] + s[1..] == s;
    }
  }

  lemma {:induction false} CollapseNormal(s: string, inRun: bool)
    requires NoDoubleHyphen(s) && (inRun && s != "" ==> s[0] != '-')
    ensures Collapse(s, inRun) == s
  {
    if s != "" {
      assert NoDoubleHyphen(s[1..]);
      CollapseNormal(s[1..], s[0] == '-');
      assert [s[0]] + s[1..] == s;
    }
  }

  /** The normal slugs are exactly the ones the proposal leaves alone, so
      proposing is idempotent, and every one of them is valid. */
  lemma {:induction false} FixedPoints(s: string, decompose: char -> string)
    ensures NormalizeSlug(s, decompose) == s <==> Normal(s)
    ensures Normal(s) ==> IsValidSlug(s)
  {
    ProposalIsNormal(s, decompose);
    if Normal(s) { NormalIsFixed(s, decompose); }
  }

  lemma NormalIsFixed(s: string, decompose: char -> string)
    requires Normal(s)
    ensures NormalizeSlug(s, decompose) == s
  {
    FoldNormal(s, decompose);
    HyphenateNormal(s);
    CollapseNormal(s, false);
    assert StripLeft(s) == s && StripRight(s) == s;
  }

  lemma ProposalIsValidAndIdempotent(text: string, decompose: char -> string)
    ensures var s := NormalizeSlug(text, decompose); IsValidSlug(s) && NormalizeSlug(s, decompose) == s
  {
    ProposalIsNormal(text, decompose);
    FixedPoints(NormalizeSlug(text, decompose), decompose);
  }

  /** Validity is wider than the pattern reads: a trailing newline passes, and
      such a slug is never one the proposal would give. */
  lemma NewlineSlugPasses(s: string, decompose: char -> string)
    requires s != "" && '\n' !in s
    ensures IsValidSlug(s + "\n") <==> IsValidSlug(s)
    ensures NormalizeSlug(s + "\n", decompose) != s + "\n"
  {
    FixedPoints(s + "\n", decompose);
    assert (s + "\n")[|s|] == '\n';
    assert forall i | 0 <= i < |s| :: (s + "\n")[i] == s[i];
  }

  // ---- which slug is proposed

  /** A character a slug keeps as it is, hyphens apart. */
  ghost predicate Kept(c: char) { 'a' <= c <= 'z' || '0' <= c <= '9' || c == '.' || c == '_' }

  /** Hyphenating and collapsing together: every run of other characters, hyphens
      among them, becomes one hyphen. */
  ghost function Dash(s: string, inRun: bool): string {
    if s == "" then ""
    else if Kept(s[0]) then [s[0]] + Dash(s[1..], false)
    else (if inRun then "" else "-") + Dash(s[1..], true)
  }

  lemma {:induction false} OnePass(s: string, h: bool, c: bool)
    requires h ==> c
    ensures Collapse(Hyphenate(s, h), c) == Dash(s, c)
  {
    if s != "" {
      var rest := s[1..];
      if SlugChar(s[0]) {
        OnePass(rest, false, s[0] == '-');
        assert ([s[0]] + Hyphenate(rest, false))[1..] == Hyphenate(rest, false);
      } else {
        OnePass(rest, true, true);
        assert "" + Hyphenate(rest, true) == Hyphenate(rest, true);
        assert ("-" + Hyphenate(rest, true))[1..] == Hyphenate(rest, true);
      }
    }
  }

  /** A text as what is kept of it and the runs between. */
  ghost function Woven(kept: seq<string>, gaps: seq<string>): string
    requires |kept| == |gaps| + 1
  {
    if gaps == [] then kept[0] else kept[0] + gaps[0] + Woven(kept[1..], gaps[1..])
  }

  ghost predicate Weaves(kept: seq<string>, gaps: seq<string>) {
    && |kept| == |gaps| + 1
    && (forall i | 0 <= i < |kept| :: forall c | c in kept[i] :: Kept(c))
    && (forall i | 0 <= i < |gaps| :: gaps[i] != "" && forall c | c in gaps[i] :: !Kept(c))
    && (forall i | 0 < i < |kept| - 1 :: kept[i] != "")
  }

  lemma {:induction false} DashKeeps(word: string, rest: string, inRun: bool)
    requires forall c | c in word :: Kept(c)
    ensures Dash(word + rest, inRun) == word + Dash(rest, if word == "" then inRun else false)
  {
    if word == "" {
      assert word + rest == rest;
    } else {
      assert word[0] in word && forall c | c in word[1..] :: c in word;
      assert (word + rest)[0] == word[0] && (word + rest)[1..] == word[1..] + rest;
      DashKeeps(word[1..], rest, false);
    }
  }

  lemma {:induction false} DashGap(gap: string, rest: string, inRun: bool)
    requires gap != "" && forall c | c in gap :: !Kept(c)
    ensures Dash(gap + rest, inRun) == (if inRun then "" else "-") + Dash(rest, true)
  {
    assert gap[0] in gap && forall c | c in gap[1..] :: c in gap;
    assert (gap + rest)[0] == gap[0] && (gap + rest)[1..] == gap[1..] + rest;
    if gap[1..] == "" { assert gap[1..] + rest == rest; } else { DashGap(gap[1..], rest, true); }
  }

  lemma {:induction false} DashWoven(kept: seq<string>, gaps: seq<string>, inRun: bool)
    requires Weaves(kept, gaps) && (inRun && |gaps| > 0 ==> kept[0] != "")
    ensures Dash(Woven(kept, gaps), inRun) == Join(kept, '-')
  {
    if gaps == [] {
      DashKeeps(kept[0], "", inRun);
      assert kept[0] + "" == kept[0] && Dash("", inRun) == "" && Dash("", false) == "";
    } else {
      var rest := Woven(kept[1..], gaps[1..]);
      assert Woven(kept, gaps) == kept[0] + (gaps[0] + rest);
      DashKeeps(kept[0], gaps[0] + rest, inRun);
      DashGap(gaps[0], rest, if kept[0] == "" then inRun else false);
      DashWoven(kept[1..], gaps[1..], true);
      assert Join(kept, '-') == kept[0] + "-" + Join(kept[1..], '-');
    }
  }

  ghost predicate AllEdge(s: string) { forall c | c in s :: c == '-' || c == '.' || c == '_' }

  ghost predicate Bounded(s: string) { s != "" ==> !Edge(s[0]) && !Edge(s[|s| - 1]) }

  lemma {:induction false} StripsLeft(left: string, s: string)
    requires AllEdge(left) && (s != "" ==> !Edge(s[0]))
    ensures StripLeft(left + s) == s
  {
    if left == "" {
      assert left + s == s;
    } else {
      assert left[0] in left && forall c | c in left[1..] :: c in left;
      assert (left + s)[0] == left[0] && (left + s)[1..] == left[1..] + s;
      StripsLeft(left[1..], s);
    }
  }

  lemma {:induction false} StripsRight(s: string, right: string)
    requires AllEdge(right) && (s != "" ==> !Edge(s[|s| - 1]))
    ensures StripRight(s + right) == s
  {
    if right == "" {
      assert s + right == s;
    } else {
      var n := |right| - 1;
      assert right[n] in right && forall c | c in right[..n] :: c in right;
      assert (s + right)[|s + right| - 1] == right[n] && (s + right)[..|s| + n] == s + right[..n];
      StripsRight(s, right[..n]);
    }
  }

  /** The proposal for any name: of its folded text the letters, digits, dots and
      underscores, with one hyphen for whatever is between, less what of hyphens,
      dots and underscores is at either end; `repo` when nothing is left. */
  lemma {:induction false} ProposalIs(text: string, decompose: char -> string, kept: seq<string>, gaps: seq<string>,
                                      left: string, slug: string, right: string)
    requires Weaves(kept, gaps) && Fold(text, decompose) == Woven(kept, gaps)
    requires Join(kept, '-') == left + slug + right && AllEdge(left) && AllEdge(right) && Bounded(slug)
    ensures NormalizeSlug(text, decompose) == if slug == "" then "repo" else slug
  {
    OnePass(Fold(text, decompose), false, false);
    DashWoven(kept, gaps, false);
    if slug == "" {
      assert left + slug + right == (left + right) + "";
      StripsLeft(left + right, "");
      assert StripRight("") == "";
    } else {
      assert left + slug + right == left + (slug + right);
      StripsLeft(left, slug + right);
      StripsRight(slug, right);
    }
  }

  /** How a name folds, one character after another: ASCII is lowered, anything
      else becomes what is ASCII in its decomposition. */
  lemma {:induction false} FoldIs(a: string, b: string, c: char, decompose: char -> string)
    ensures Fold("", decompose) == "" && Fold(a + b, decompose) == Fold(a, decompose) + Fold(b, decompose)
    ensures Fold([c], decompose) == if c < 128 as char then [if 'A' <= c <= 'Z' then c - 'A' + 'a' else c]
                                    else AsciiLower(decompose(c))
    ensures AsciiLower(a + b) == AsciiLower(a) + AsciiLower(b)
    ensures AsciiLower([c]) == if c < 128 as char then [if 'A' <= c <= 'Z' then c - 'A' + 'a' else c] else ""
  {
    assert [c][1..] == "" && AsciiLower("") == "" && Fold("", decompose) == "";
    assert AsciiLower([c]) == (if Ascii(c) then [Lower(c)] else "") + "";
    assert Fold([c], decompose) == AsciiLower(if Ascii(c) then [c] else decompose(c)) + "";
    FoldJoins(a, b, decompose);
    LowerJoins(a, b);
  }

  lemma {:induction false} FoldJoins(a: string, b: string, decompose: char -> string)
    ensures Fold(a + b, decompose) == Fold(a, decompose) + Fold(b, decompose)
  {
    if a == "" {
      assert a + b == b;
    } else {
      assert (a + b)[0] == a[0] && (a + b)[1..] == a[1..] + b;
      FoldJoins(a[1..], b, decompose);
    }
  }

  lemma {:induction false} LowerJoins(a: string, b: string)
    ensures AsciiLower(a + b) == AsciiLower(a) + AsciiLower(b)
  {
    if a == "" {
      assert a + b == b;
    } else {
      assert (a + b)[0] == a[0] && (a + b)[1..] == a[1..] + b;
      LowerJoins(a[1..], b);
    }
  }

  /** A valid slug is a letter or digit, then letters, digits, dots, underscores
      and hyphens, and then at most one newline. */
  lemma ValidMeans(s: string)
    ensures IsValidSlug(s)
            <==> exists core: string ::
              && (s == core || s == core + "\n")
              && core != "" && ('a' <= core[0] <= 'z' || '0' <= core[0] <= '9')
              && forall i | 0 <= i < |core| :: Kept(core[i]) || core[i] == '-'
  {
    if IsValidSlug(s) {
      var core := if s[|s| - 1] == '\n' then s[..|s| - 1] else s;
      assert s == core || s == core + "\n";
      forall i | 0 <= i < |core| ensures Kept(core[i]) || core[i] == '-' { assert core[i] == s[i]; }
    }
    forall core: string | core != "" && ('a' <= core[0] <= 'z' || '0' <= core[0] <= '9')
                          && (forall i | 0 <= i < |core| :: Kept(core[i]) || core[i] == '-')
      ensures IsValidSlug(core) && IsValidSlug(core + "\n")
    {
      assert forall i | 0 <= i < |core| :: (core + "\n")[i] == core[i];
    }
  }
}
