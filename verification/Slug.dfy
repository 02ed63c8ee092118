/** `slugify` of lib/ids.ts. */
module Slug {
  import opened Text

  const MAX_LENGTH := 64

  predicate IsSlugChar(c: char) {
    'a' <= c <= 'z' || '0' <= c <= '9'
  }

  /**
   Lower-casing one character, as far as a slug can tell: besides A-Z only the Kelvin sign and the
   dotted capital I lower to text with a letter of the slug alphabet in it.
   */
  function LowerChar(c: char): string {
    if 'A' <= c <= 'Z' then [('a' as int + (c as int - 'A' as int)) as char]
    else if c == '\U{212A}' then "k"
    else if c == '\U{0130}' then ['i', '\U{0307}']
    else [c]
  }

  function Lower(s: string): string {
    if s == "" then "" else LowerChar(s[0]) + Lower(s[1..])
  }

  /** What is left after a leading run of characters outside the alphabet. */
  function DropRun(s: string): (r: string)
    ensures |r| <= |s|
    ensures r != "" ==> IsSlugChar(r[0])
  {
    if s != "" && !IsSlugChar(s[0]) then DropRun(s[1..]) else s
  }

  /** Every run of characters outside the alphabet becomes one dash. */
  function Dashed(s: string): string
    decreases |s|
  {
    if s == "" then ""
    else if IsSlugChar(s[0]) then [s[0]] + Dashed(s[1..])
    else "-" + Dashed(DropRun(s[1..]))
  }

  function StripLeft(s: string): string {
    if s != "" && s[0] == '-' then StripLeft(s[1..]) else s
  }

  function StripRight(s: string): string {
    if s != "" && s[|s| - 1] == '-' then StripRight(s[..|s| - 1]) else s
  }

  /** The runs replaced, before the ends are stripped. */
  function Raw(name: string): string {
    Dashed(Lower(Trim(name)))
  }

  function Strip(s: string): string {
    StripRight(StripLeft(s))
  }

  function Cut(s: string): string {
    if |s| <= MAX_LENGTH then s else s[..MAX_LENGTH]
  }

  function Slugify(name: string): string {
    Cut(Strip(Raw(name)))
  }

  /** Letters and digits in groups joined by single dashes. */
  predicate Body(s: string) {
    && (forall i | 0 <= i < |s| :: IsSlugChar(s[i]) || s[i] == '-')
    && (forall i | 0 <= i < |s| - 1 :: s[i] != '-' || s[i + 1] != '-')
  }

  predicate StrippedBody(s: string) {
    Body(s) && (s != "" ==> s[0] != '-' && s[|s| - 1] != '-')
  }

  /** A finished slug: short enough, and with no dash at either end. */
  predicate IsSlug(s: string) {
    StrippedBody(s) && |s| <= MAX_LENGTH
  }

  lemma {:induction false} DashedIsBody(s: string)
    ensures Body(Dashed(s))
    ensures s != "" && IsSlugChar(s[0]) ==> Dashed(s) != "" && Dashed(s)[0] != '-'
    decreases |s|
  {
    if s == "" {
    } else {
      if IsSlugChar(s[0]) {
        DashedIsBody(s[1..]);
      } else {
        DashedIsBody(DropRun(s[1..]));
      }
    }
  }

  lemma TailIsBody(s: string)
    requires Body(s) && s != ""
    ensures Body(s[1..])
  {
  }

  lemma LowerCharKeeps(c: char)
    requires IsSlugChar(c) || c == '-'
    ensures LowerChar(c) == [c]
  {
  }

  lemma {:induction false} LowerKeepsBody(s: string)
    requires Body(s)
    ensures Lower(s) == s
  {
    if s == "" {
    } else {
      TailIsBody(s);
      LowerKeepsBody(s[1..]);
      LowerCharKeeps(s[0]);
      assert s == [s[0]] + s[1..];
    }
  }

  lemma {:induction false} DashedKeepsBody(s: string)
    requires Body(s)
    ensures Dashed(s) == s
    decreases |s|
  {
    if s == "" {
    } else {
      assert Body(s[1..]);
      assert s == [s[0]] + s[1..];
      DashedKeepsBody(s[1..]);
      if !IsSlugChar(s[0]) {
        assert s[1..] != "" ==> IsSlugChar(s[1..][0]);
        assert DropRun(s[1..]) == s[1..];
      }
    }
  }

  /** On a body, stripping takes away at most one dash on each side. */
  lemma StripBody(s: string)
    requires Body(s)
    ensures var l := StripLeft(s); Body(l) && (l != "" ==> l[0] != '-')
    ensures (s != "" ==> s[0] != '-') ==> StripLeft(s) == s
    ensures var r := StripRight(s); Body(r) && (r != "" ==> r[|r| - 1] != '-') && (r != "" ==> r[0] == s[0])
    ensures StripRight(s) == if s != "" && s[|s| - 1] == '-' then s[..|s| - 1] else s
  {
    if s != "" && s[0] == '-' {
      assert StripLeft(s) == StripLeft(s[1..]);
      assert StripLeft(s[1..]) == s[1..];
      assert forall i | 0 <= i < |s| - 1 :: s[1..][i] == s[i + 1];
    }
    if s != "" && s[|s| - 1] == '-' {
      var p := s[..|s| - 1];
      assert p != "" ==> p[|p| - 1] != '-';
      assert StripRight(s) == StripRight(p);
    }
  }

  lemma BodyIsTrimmed(s: string)
    requires Body(s)
    ensures Trim(s) == s
  {
    if s != "" {
      BodyCharIsNoSpace(s[0]);
      BodyCharIsNoSpace(s[|s| - 1]);
    }
    TrimFixed(s);
  }

  lemma BodyCharIsNoSpace(c: char)
    requires IsSlugChar(c) || c == '-'
    ensures !IsSpace(c)
  {
  }

  /** On a body the whole chain only cuts. */
  lemma BodyIsRaw(s: string)
    requires Body(s)
    ensures Raw(s) == s
  {
    BodyIsTrimmed(s);
    LowerKeepsBody(s);
    DashedKeepsBody(s);
  }

  lemma StripGivesStripped(s: string)
    requires Body(s)
    ensures StrippedBody(Strip(s))
    ensures StrippedBody(s) ==> Strip(s) == s
  {
    StripBody(s);
    StripBody(StripLeft(s));
  }

  // ----- what a slug is, said without any replacing or stripping

  /** The pieces between characters outside the alphabet; always at least one. */
  function Pieces(s: string): (ps: seq<string>)
    ensures |ps| >= 1
  {
    if s == "" then [""]
    else
      var rest := Pieces(s[1..]);
      if IsSlugChar(s[0]) then [[s[0]] + rest[0]] + rest[1..] else [""] + rest
  }

  function NonEmpties(ps: seq<string>): seq<string> {
    if ps == [] then [] else (if ps[0] == "" then [] else [ps[0]]) + NonEmpties(ps[1..])
  }

  /** The longest runs of letters and digits, in order. */
  function Words(s: string): seq<string> {
    NonEmpties(Pieces(s))
  }

  function Hyphenated(s: string): string {
    Join(Words(s), "-")
  }

  /** The dash that a trailing run leaves behind the words. */
  function TrailingDash(s: string): string {
    if s != "" && !IsSlugChar(s[|s| - 1]) then "-" else ""
  }

  lemma NonEmptiesCons(p: string, ps: seq<string>)
    ensures NonEmpties([p] + ps) == (if p == "" then [] else [p]) + NonEmpties(ps)
  {
    assert ([p] + ps)[1..] == ps;
  }

  lemma WordsSkip(s: string)
    requires s != "" && !IsSlugChar(s[0])
    ensures Words(s) == Words(s[1..])
  {
    NonEmptiesCons("", Pieces(s[1..]));
  }

  lemma FirstPiece(s: string)
    ensures Pieces(s)[0] == "" <==> s == "" || !IsSlugChar(s[0])
  {
  }

  predicate StartsWithLetter(s: string) {
    s != "" && IsSlugChar(s[0])
  }

  lemma WordsOfPieces(front: string, ps: seq<string>)
    requires ps != [] && front != ""
    ensures NonEmpties([front + ps[0]] + ps[1..]) == [front + ps[0]] + NonEmpties(ps[1..])
    ensures NonEmpties(ps) == (if ps[0] == "" then [] else [ps[0]]) + NonEmpties(ps[1..])
  {
    NonEmptiesCons(front + ps[0], ps[1..]);
  }

  /** A letter in front of a word lengthens it; in front of anything else it is a word of its own. */
  lemma WordsCons(c: char, rest: string)
    requires IsSlugChar(c)
    ensures !StartsWithLetter(rest) ==> Words([c] + rest) == [[c]] + Words(rest)
    ensures StartsWithLetter(rest) ==>
              Words(rest) != [] && Words([c] + rest) == [[c] + Words(rest)[0]] + Words(rest)[1..]
  {
    var ps := Pieces(rest);
    assert ([c] + rest)[1..] == rest;
    FirstPiece(rest);
    WordsOfPieces([c], ps);
    assert ps[0] == "" ==> [c] + ps[0] == [c] && [] + NonEmpties(ps[1..]) == NonEmpties(ps[1..]);
  }

  lemma {:induction false} LettersMakeWords(s: string)
    requires s != "" && (IsSlugChar(s[0]) || IsSlugChar(s[|s| - 1]))
    ensures Words(s) != []
  {
    assert s == [s[0]] + s[1..];
    if IsSlugChar(s[0]) {
      WordsCons(s[0], s[1..]);
    } else {
      WordsSkip(s);
      assert s[1..][|s| - 2] == s[|s| - 1];
      LettersMakeWords(s[1..]);
    }
  }

  lemma {:induction false} WordsAfterRun(s: string)
    ensures Words(DropRun(s)) == Words(s)
    ensures DropRun(s) != "" ==> TrailingDash(DropRun(s)) == TrailingDash(s)
    ensures DropRun(s) == "" ==> Words(s) == []
  {
    if s != "" && !IsSlugChar(s[0]) {
      WordsSkip(s);
      WordsAfterRun(s[1..]);
      TailOfTail(s);
    }
  }

  lemma TailOfTail(s: string)
    requires s != ""
    ensures s[1..] != "" ==> TrailingDash(s[1..]) == TrailingDash(s)
  {
    if s[1..] != "" {
      assert s[1..][|s| - 2] == s[|s| - 1];
    }
  }

  /** The words joined by dashes, with one more dash for a run at either end. */
  function Assembled(letterFirst: bool, words: seq<string>, tail: string): string {
    if words == [] then "-" else (if letterFirst then "" else "-") + (Join(words, "-") + tail)
  }

  function DashedWords(s: string): string {
    if s == "" then "" else Assembled(IsSlugChar(s[0]), Words(s), TrailingDash(s))
  }

  lemma {:induction false} DashedIsWords(s: string)
    ensures Dashed(s) == DashedWords(s)
    decreases |s|
  {
    if s == "" {
    } else {
      assert s == [s[0]] + s[1..];
      if IsSlugChar(s[0]) {
        DashedIsWords(s[1..]);
        LetterInFront(s[0], s[1..], s);
      } else {
        DashedIsWords(DropRun(s[1..]));
        RunInFront(s, DropRun(s[1..]));
      }
    }
  }

  lemma AssembledRun(words: seq<string>, tail: string)
    requires words != []
    ensures Assembled(false, words, tail) == "-" + Assembled(true, words, tail)
  {
  }

  lemma RunInFront(s: string, r: string)
    requires s != "" && !IsSlugChar(s[0]) && r == DropRun(s[1..])
    ensures DashedWords(s) == "-" + DashedWords(r)
  {
    WordsSkip(s);
    WordsAfterRun(s[1..]);
    TailOfTail(s);
    if r != "" {
      LettersMakeWords(r);
      AssembledRun(Words(r), TrailingDash(r));
    }
  }

  lemma AssembledLetter(c: char, words: seq<string>, tail: string)
    requires words != []
    ensures Assembled(true, [[c] + words[0]] + words[1..], tail) == [c] + Assembled(true, words, tail)
    ensures Assembled(true, [[c]] + words, tail) == [c] + Assembled(false, words, tail)
  {
    JoinFront([c], words, "-");
    JoinCons([c], words, "-");
    assert ([c] + Join(words, "-")) + tail == [c] + (Join(words, "-") + tail);
    assert ([c] + "-" + Join(words, "-")) + tail == [c] + ("-" + (Join(words, "-") + tail));
  }

  lemma AssembledOne(c: char, tail: string)
    ensures Assembled(true, [[c]] + [], tail) == [c] + tail
  {
  }

  lemma LetterInFront(c: char, rest: string, s: string)
    requires IsSlugChar(c) && s == [c] + rest
    ensures DashedWords(s) == [c] + DashedWords(rest)
  {
    WordsCons(c, rest);
    TailOfTail(s);
    assert s[1..] == rest;
    if rest == "" {
      NoWordsInNothing();
      AssembledOne(c, "");
    } else if Words(rest) != [] {
      AssembledLetter(c, Words(rest), TrailingDash(rest));
    } else {
      AssembledOne(c, "-");
      WordlessEndsInRun(rest);
    }
  }

  lemma WordlessEndsInRun(s: string)
    requires s != "" && Words(s) == []
    ensures TrailingDash(s) == "-" && !StartsWithLetter(s)
  {
    if IsSlugChar(s[0]) || IsSlugChar(s[|s| - 1]) {
      LettersMakeWords(s);
    }
  }

  lemma NoWordsInNothing()
    ensures Words("") == []
  {
    assert [""][1..] == [];
  }

  lemma HyphenatedIsStripped(s: string)
    ensures Words(s) != [] ==>
              Hyphenated(s) != "" && Hyphenated(s)[0] != '-' && Hyphenated(s)[|Hyphenated(s)| - 1] != '-'
  {
    WordsAreWords(s);
    if Words(s) != [] {
      JoinedEnds(Words(s));
    }
  }

  predicate IsWord(w: string) {
    w != "" && forall i | 0 <= i < |w| :: IsSlugChar(w[i])
  }

  lemma {:induction false} PiecesAreLetters(s: string)
    ensures forall p, i | p in Pieces(s) && 0 <= i < |p| :: IsSlugChar(p[i])
  {
    if s == "" {
    } else {
      PiecesAreLetters(s[1..]);
    }
  }

  lemma {:induction false} NonEmptiesAre(ps: seq<string>)
    ensures forall p :: p in NonEmpties(ps) <==> p in ps && p != ""
  {
    if ps == [] {
    } else {
      NonEmptiesAre(ps[1..]);
      assert ps == [ps[0]] + ps[1..];
    }
  }

  lemma WordsAreWords(s: string)
    ensures forall w | w in Words(s) :: IsWord(w)
  {
    PiecesAreLetters(s);
    NonEmptiesAre(Pieces(s));
  }

  lemma {:induction false} JoinedEnds(ws: seq<string>)
    requires ws != [] && forall w | w in ws :: IsWord(w)
    ensures var j := Join(ws, "-"); j != "" && j[0] != '-' && j[|j| - 1] != '-'
  {
    assert IsWord(ws[0]);
    if |ws| > 1 {
      JoinedEnds(ws[1..]);
    }
  }

  lemma StripLeftIs(s: string)
    requires s != "" ==> s[0] != '-'
    ensures StripLeft(s) == s && StripLeft("-" + s) == s
  {
    assert ("-" + s)[1..] == s;
  }

  lemma StripRightIs(s: string)
    requires s != "" ==> s[|s| - 1] != '-'
    ensures StripRight(s) == s && StripRight(s + "-") == s
  {
    assert (s + "-")[..|s|] == s;
  }

  lemma StripEnds(front: string, s: string, back: string)
    requires (front == "" || front == "-") && (back == "" || back == "-")
    requires s != "" && s[0] != '-' && s[|s| - 1] != '-'
    ensures Strip(front + s + back) == s
  {
    StripLeftIs(s + back);
    StripRightIs(s);
    assert front + s + back == if front == "" then s + back else "-" + (s + back);
    assert s + back == if back == "" then s else s + "-";
  }

  /** A slug is the words of the lowered name joined by dashes, cut at 64 characters. */
  lemma SlugIsWords(name: string)
    ensures Slugify(name) == Cut(Hyphenated(Lower(Trim(name))))
  {
    StrippedIsWords(Lower(Trim(name)));
  }

  lemma StrippedIsWords(s: string)
    ensures Strip(Dashed(s)) == Hyphenated(s)
  {
    DashedIsWords(s);
    if s == "" {
      NoWordsInNothing();
    } else if Words(s) == [] {
      StripLeftIs("");
      assert "-" + "" == "-";
    } else {
      HyphenatedIsStripped(s);
      var front := if IsSlugChar(s[0]) then "" else "-";
      assert front + (Hyphenated(s) + TrailingDash(s)) == front + Hyphenated(s) + TrailingDash(s);
      StripEnds(front, Hyphenated(s), TrailingDash(s));
    }
  }

  /** A finished slug, or one of 63 characters with a dash at the cut. */
  predicate IsCutSlug(s: string) {
    IsSlug(s) || (|s| == MAX_LENGTH && Body(s) && s[MAX_LENGTH - 1] == '-' && IsSlug(s[..MAX_LENGTH - 1]))
  }

  lemma CutShape(s: string)
    requires StrippedBody(s)
    ensures IsCutSlug(Cut(s))
  {
    var c := Cut(s);
    if |s| > MAX_LENGTH {
      assert forall i | 0 <= i < MAX_LENGTH :: c[i] == s[i];
      assert Body(c) && Body(c[..MAX_LENGTH - 1]);
    }
  }

  /** In a slug stand only the letters a-z, the digits and single dashes, and none of these in front. */
  lemma SlugAlphabet(name: string)
    ensures var s := Slugify(name);
            && |s| <= 64
            && (forall i | 0 <= i < |s| :: 'a' <= s[i] <= 'z' || '0' <= s[i] <= '9' || s[i] == '-')
            && (forall i | 0 <= i < |s| - 1 :: s[i] != '-' || s[i + 1] != '-')
            && (s != "" ==> s[0] != '-')
  {
    SlugifyShape(name);
  }

  /** A name has no slug exactly when nothing in it, lowered, is a letter of a-z or a digit. */
  lemma NoSlugIff(name: string)
    ensures var s := Lower(Trim(name));
            Slugify(name) == "" <==> forall i | 0 <= i < |s| :: !('a' <= s[i] <= 'z' || '0' <= s[i] <= '9')
  {
    var s := Lower(Trim(name));
    SlugIsWords(name);
    HyphenatedIsStripped(s);
    WordsIff(s);
  }

  lemma {:induction false} WordsIff(s: string)
    ensures Words(s) == [] <==> forall i | 0 <= i < |s| :: !('a' <= s[i] <= 'z' || '0' <= s[i] <= '9')
  {
    if s == "" {
      NoWordsInNothing();
    } else if IsSlugChar(s[0]) {
      LettersMakeWords(s);
    } else {
      WordsSkip(s);
      WordsIff(s[1..]);
      assert forall i | 1 <= i < |s| :: s[i] == s[1..][i - 1];
    }
  }

  /** The letters of a-z and digits of a text, in order. */
  function Letters(s: string): string {
    if s == "" then ""
    else (if 'a' <= s[0] <= 'z' || '0' <= s[0] <= '9' then [s[0]] else "") + Letters(s[1..])
  }

  /** What lower-casing a character shows in a slug. */
  lemma LowerShows(c: char)
    ensures 'a' <= c <= 'z' || '0' <= c <= '9' ==> Letters(LowerChar(c)) == [c]
    ensures 'A' <= c <= 'Z' ==> Letters(LowerChar(c)) == [(c as int + 32) as char]
    ensures c == '\U{212A}' ==> Letters(LowerChar(c)) == ['k']
    ensures c == '\U{0130}' ==> Letters(LowerChar(c)) == ['i']
    ensures !('a' <= c <= 'z' || '0' <= c <= '9' || 'A' <= c <= 'Z' || c == '\U{212A}' || c == '\U{0130}') ==>
              Letters(LowerChar(c)) == ""
  {
    assert ['i', '\U{0307}'][1..] == ['\U{0307}'];
  }

  /** The words hold every letter and digit of the text once and in order, and nothing else. */
  lemma {:induction false} WordsKeepLetters(s: string)
    ensures Concat(Words(s)) == Letters(s)
  {
    if s == "" {
      NoWordsInNothing();
    } else if IsSlugChar(s[0]) {
      WordsKeepLetters(s[1..]);
      assert s == [s[0]] + s[1..];
      WordsCons(s[0], s[1..]);
      ConcatCons(s[0], Words(s[1..]));
    } else {
      WordsSkip(s);
      WordsKeepLetters(s[1..]);
    }
  }

  lemma ConcatCons(c: char, ws: seq<string>)
    ensures Concat([[c]] + ws) == [c] + Concat(ws)
    ensures ws != [] ==> Concat([[c] + ws[0]] + ws[1..]) == [c] + Concat(ws)
  {
    assert ([[c]] + ws)[1..] == ws;
    if ws != [] {
      assert ([[c] + ws[0]] + ws[1..])[1..] == ws[1..];
    }
  }

  /** Whatever the name, its slug has this shape. */
  lemma SlugifyShape(name: string)
    ensures IsCutSlug(Slugify(name))
  {
    DashedIsBody(Lower(Trim(name)));
    StripGivesStripped(Raw(name));
    CutShape(Strip(Raw(name)));
  }

  /** The names that are their own slug are the finished slugs. */
  lemma SlugifyFixes(s: string)
    ensures Slugify(s) == s <==> IsSlug(s)
  {
    if IsSlug(s) {
      BodyIsRaw(s);
      StripGivesStripped(s);
    }
    SlugifyShape(s);
    if IsCutSlug(s) && !IsSlug(s) {
      LosesCutDash(s);
    }
  }

  /** Slugifying again takes away the dash that the cut left. */
  lemma LosesCutDash(s: string)
    requires IsCutSlug(s) && !IsSlug(s)
    ensures Slugify(s) == s[..MAX_LENGTH - 1]
  {
    BodyIsRaw(s);
    StripBody(s);
  }

  /** One application settles a name unless the cut left a dash; two always do. */
  lemma SlugifySettles(name: string)
    ensures var s := Slugify(name);
            && (Slugify(s) == s <==> (s == "" || s[|s| - 1] != '-'))
            && Slugify(Slugify(s)) == Slugify(s)
  {
    var s := Slugify(name);
    SlugifyShape(name);
    SlugifyFixes(s);
    if !IsSlug(s) {
      LosesCutDash(s);
      SlugifyFixes(s[..MAX_LENGTH - 1]);
    }
  }

  /**
   Exactly which names need a second application: those whose words, joined, are longer than the limit
   and are cut right behind a dash.
   */
  lemma NeedsTwoIff(name: string)
    ensures Slugify(Slugify(name)) != Slugify(name) <==>
            var h := Hyphenated(Lower(Trim(name))); |h| > MAX_LENGTH && h[MAX_LENGTH - 1] == '-'
  {
    SlugIsWords(name);
    SlugifySettles(name);
    CutEnds(Lower(Trim(name)));
  }

  lemma CutEnds(s: string)
    ensures var h, c := Hyphenated(s), Cut(Hyphenated(s));
            c != "" && c[|c| - 1] == '-' <==> |h| > MAX_LENGTH && h[MAX_LENGTH - 1] == '-'
  {
    HyphenatedIsStripped(s);
  }

  /** For instance a word of 63 letters, a dash and another word: the cut leaves the dash between them. */
  lemma CutBehindDash(word: string, next: string, name: string)
    requires IsWord(word) && |word| == 63 && IsWord(next) && name == word + "-" + next
    ensures Slugify(name) == word + "-" && Slugify(Slugify(name)) == word
  {
    TwoWordsAreStripped(word, next, name);
    LongNameIsCut(name);
    FrontOf(word, next, name);
    SlugifyShape(name);
    LosesDashBehind(word, word + "-");
  }

  lemma LongNameIsCut(name: string)
    requires StrippedBody(name) && |name| > MAX_LENGTH
    ensures Slugify(name) == name[..MAX_LENGTH]
  {
    BodyIsRaw(name);
    StripGivesStripped(name);
  }

  lemma FrontOf(word: string, next: string, name: string)
    requires |word| == 63 && next != "" && name == word + "-" + next
    ensures |name| > MAX_LENGTH && name[..MAX_LENGTH] == word + "-"
  {
  }

  lemma LosesDashBehind(word: string, slug: string)
    requires |word| == 63 && slug == word + "-" && IsCutSlug(slug)
    ensures Slugify(slug) == word
  {
    assert slug[|slug| - 1] == '-';
    LosesCutDash(slug);
    assert slug[..63] == word;
  }

  lemma TwoWordsAreStripped(word: string, next: string, name: string)
    requires IsWord(word) && IsWord(next) && name == word + "-" + next
    ensures StrippedBody(name)
  {
    assert forall i | 0 <= i < |word| :: name[i] == word[i];
    assert forall i | 0 <= i < |next| :: name[|word| + 1 + i] == next[i];
    assert forall i | 0 <= i < |name| :: name[i] == '-' ==> i == |word|;
  }

  /** At one name: 63 times the letter a, then "-b". */
  lemma SixtyThreeAs(word: string)
    requires word == seq(63, _ => 'a')
    ensures Slugify(word + "-" + "b") == word + "-" && Slugify(Slugify(word + "-" + "b")) == word
  {
    CutBehindDash(word, "b", word + "-" + "b");
  }
}
