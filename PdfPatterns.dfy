/**
 * The regular expressions of the PDF converter, each written as a scanner.
 * `re.sub(pattern, '', t)` tries the pattern at every position from the left;
 * where it matches, the match is dropped and the scan resumes after it, and
 * elsewhere the character is kept. Every pattern here matches at most one way
 * from a given start, so a match is a function of where it starts.
 */
module PdfPatterns {

  import opened Wrappers
  import opened Text

  /**
   * The two patterns of `remove_page_rules`, the block pattern as evidently
   * intended, and the wrapper-tag pattern of the body selection.
   */
  datatype Pattern =
    | PageBlock          // @page\s+[^{]+{[^}]*}   ignoring case, `.` spanning lines
    | IntendedPageBlock  // @page[^{]*{[^}]*}      ignoring case
    | PageDecl           // page\s*:\s*[^;{]+;     ignoring case
    | WrapperTag         // </?(html|head|body)[^>]*>   ignoring case

  /** `page`, in any ASCII case, stands somewhere in `t`. */
  predicate MentionsPage(t: string) {
    exists i: nat | i <= |t| :: WordAtIgnoreCase(t, i, "page")
  }

  /** A mention of `page` in a suffix of `t` is a mention in `t`. */
  lemma MentionsPageInSuffix(t: string, d: nat)
    requires d <= |t| && MentionsPage(t[d..])
    ensures MentionsPage(t)
  {
    var i: nat :| i <= |t[d..]| && WordAtIgnoreCase(t[d..], i, "page");
    WordAtShift(t, d, i, "page");
  }

  /** A word found at `i` in `t[d..]` stands at `i + d` in `t`. */
  lemma WordAtShift(t: string, d: nat, i: nat, word: string)
    requires d <= |t| && WordAtIgnoreCase(t[d..], i, word)
    ensures WordAtIgnoreCase(t, i + d, word)
  {
    assert t[d..][i..i + |word|] == t[i + d..i + d + |word|];
  }

  /** The first index at or after `from` that is not whitespace, or `|t|`. */
  function SkipSpaces(t: string, from: nat): (k: nat)
    requires from <= |t|
    decreases |t| - from
    ensures from <= k <= |t| && (k < |t| ==> !IsSpace(t[k]))
    ensures forall j :: from <= j < k ==> IsSpace(t[j])
  {
    if from < |t| && IsSpace(t[from]) then SkipSpaces(t, from + 1) else from
  }

  /** The first index at or after `from` that holds `;` or `{`, if any. */
  function IndexOfStop(t: string, from: nat): (k: Option<nat>)
    decreases |t| - from
    ensures k.Some? ==> from <= k.value < |t| && (t[k.value] == ';' || t[k.value] == '{')
    ensures k.Some? ==> forall j :: from <= j < k.value ==> t[j] != ';' && t[j] != '{'
    ensures k.None? ==> forall j :: from <= j < |t| ==> t[j] != ';' && t[j] != '{'
  {
    if from >= |t| then None
    else if t[from] == ';' || t[from] == '{' then Some(from)
    else IndexOfStop(t, from + 1)
  }

  /**
   * `@page\s+[^{]+{[^}]*}` at the front of `t`. The whitespace run and the
   * selector both stop before the first `{`, and the selector needs one
   * character of its own, so the first `{` must lie at index 7 or later;
   * the match then runs to the first `}` after it.
   */
  function PageBlockEnd(t: string): (e: Option<nat>)
    ensures e.Some? ==> 9 <= e.value <= |t| && WordAtIgnoreCase(t, 1, "page")
  {
    if !(|t| >= 6 && t[0] == '@' && WordAtIgnoreCase(t, 1, "page") && IsSpace(t[5])) then None
    else match IndexOf(t, '{', 5)
      case None => None
      case Some(lb) =>
        if lb < 7 then None
        else match IndexOf(t, '}', lb + 1)
          case None => None
          case Some(rb) => Some(rb + 1)
  }

  /** `@page[^{]*{[^}]*}` at the front of `t`: any prelude up to the first `{`, then the block. */
  function IntendedPageBlockEnd(t: string): (e: Option<nat>)
    ensures e.Some? ==> 7 <= e.value <= |t| && WordAtIgnoreCase(t, 1, "page")
  {
    if !(|t| >= 5 && t[0] == '@' && WordAtIgnoreCase(t, 1, "page")) then None
    else match IndexOf(t, '{', 5)
      case None => None
      case Some(lb) =>
        match IndexOf(t, '}', lb + 1)
        case None => None
        case Some(rb) => Some(rb + 1)
  }

  /**
   * `page\s*:\s*[^;{]+;` at the front of `t`. The first non-space character
   * after `page` must be the colon; the characters after it, whitespace
   * included, run to the first `;` or `{`, which must be a `;` with at least
   * one character before it.
   */
  function PageDeclEnd(t: string): (e: Option<nat>)
    ensures e.Some? ==> 7 <= e.value <= |t| && WordAtIgnoreCase(t, 0, "page")
  {
    if !WordAtIgnoreCase(t, 0, "page") then None
    else
      var colon := SkipSpaces(t, 4);
      if colon >= |t| || t[colon] != ':' then None
      else match IndexOfStop(t, colon + 1)
        case None => None
        case Some(k) => if t[k] == ';' && k >= colon + 2 then Some(k + 1) else None
  }

  /**
   * `</?(html|head|body)[^>]*>` at the front of `t`: `<`, an optional `/`,
   * one of the three names in any case, then everything up to the first `>`.
   */
  function WrapperTagEnd(t: string): (e: Option<nat>)
    ensures e.Some? ==> 6 <= e.value <= |t| && t[0] == '<'
  {
    if t == [] || t[0] != '<' then None
    else
      var j := if |t| > 1 && t[1] == '/' then 2 else 1;
      if !(WordAtIgnoreCase(t, j, "html") || WordAtIgnoreCase(t, j, "head") || WordAtIgnoreCase(t, j, "body")) then None
      else match IndexOf(t, '>', j + 4)
        case None => None
        case Some(k) => Some(k + 1)
  }

  /** Where a match of `p` that starts at the front of `t` ends, if one does. */
  function MatchEnd(p: Pattern, t: string): (e: Option<nat>)
    ensures e.Some? ==> 1 <= e.value <= |t|
    ensures e.Some? && p != WrapperTag ==> WordAtIgnoreCase(t, 0, "page") || WordAtIgnoreCase(t, 1, "page")
    ensures e.Some? && p == WrapperTag ==> t[0] == '<'
  {
    match p
    case PageBlock => PageBlockEnd(t)
    case IntendedPageBlock => IntendedPageBlockEnd(t)
    case PageDecl => PageDeclEnd(t)
    case WrapperTag => WrapperTagEnd(t)
  }

  /** `re.sub(p, '', t)`: every match, found left to right, removed. */
  function Sub(p: Pattern, t: string): (r: string)
    decreases |t|
    ensures |r| <= |t|
  {
    if t == [] then []
    else match MatchEnd(p, t)
      case Some(e) => Sub(p, t[e..])
      case None => [t[0]] + Sub(p, t[1..])
  }

  /** The page patterns leave alone text that never mentions `page`. */
  lemma {:induction false} SubWithoutPage(p: Pattern, t: string)
    requires p != WrapperTag && !MentionsPage(t)
    decreases |t|
    ensures Sub(p, t) == t
  {
    if t != [] {
      assert !WordAtIgnoreCase(t, 0, "page") && !WordAtIgnoreCase(t, 1, "page");
      if MentionsPage(t[1..]) {
        MentionsPageInSuffix(t, 1);
      }
      SubWithoutPage(p, t[1..]);
      assert [t[0]] + t[1..] == t;
    }
  }

  /** The wrapper-tag pattern leaves alone text without a `<`. */
  lemma {:induction false} SubWithoutTag(t: string)
    requires forall k :: 0 <= k < |t| ==> t[k] != '<'
    decreases |t|
    ensures Sub(WrapperTag, t) == t
  {
    if t != [] {
      SubWithoutTag(t[1..]);
      assert [t[0]] + t[1..] == t;
    }
  }

  /**
   * `remove_page_rules` as written: the block pass, then the declaration
   * pass. Never longer than its input; text without `page` comes back as is.
   */
  function RemovePageRulesAsWritten(html: string): (r: string)
    ensures |r| <= |html|
    ensures !MentionsPage(html) ==> r == html
  {
    if !MentionsPage(html) then
      SubWithoutPage(PageBlock, html);
      SubWithoutPage(PageDecl, html);
      Sub(PageDecl, Sub(PageBlock, html))
    else Sub(PageDecl, Sub(PageBlock, html))
  }

  /**
   * `remove_page_rules` with the block pass it evidently intends, which is
   * what the converter is modelled with. Never longer than its input; text
   * without `page` comes back as is.
   */
  function RemovePageRules(html: string): (r: string)
    ensures |r| <= |html|
    ensures !MentionsPage(html) ==> r == html
  {
    if !MentionsPage(html) then
      SubWithoutPage(IntendedPageBlock, html);
      SubWithoutPage(PageDecl, html);
      Sub(PageDecl, Sub(IntendedPageBlock, html))
    else Sub(PageDecl, Sub(IntendedPageBlock, html))
  }

  /** `"@"` then a spelling of `page` in any case. */
  predicate AtPage(w: string) {
    |w| == 5 && w[0] == '@' && Lower(w[1..]) == "page"
  }

  /** `"page"` in any case. */
  predicate PageWord(w: string) {
    |w| == 4 && Lower(w) == "page"
  }

  /**
   * The intended block pass removes a whole `@page` rule, whatever its prelude
   * (none, a single space, a `:first` selector) as long as it holds no `{`,
   * and whatever its body as long as it holds no `}`.
   */
  lemma IntendedBlockRemoved(at: string, prelude: string, decls: string, rest: string)
    requires AtPage(at)
    requires forall k :: 0 <= k < |prelude| ==> prelude[k] != '{'
    requires forall k :: 0 <= k < |decls| ==> decls[k] != '}'
    ensures Sub(IntendedPageBlock, at + prelude + "{" + decls + "}" + rest) == Sub(IntendedPageBlock, rest)
  {
    var t := at + prelude + "{" + decls + "}" + rest;
    var lb := 5 + |prelude|;
    var rb := lb + 1 + |decls|;
    assert t[1..5] == at[1..];
    assert forall j :: 5 <= j < lb ==> t[j] == prelude[j - 5];
    assert t[lb] == '{';
    assert forall j :: lb < j < rb ==> t[j] == decls[j - lb - 1];
    assert t[rb] == '}';
    assert IndexOf(t, '{', 5) == Some(lb);
    assert IndexOf(t, '}', lb + 1) == Some(rb);
    assert t[rb + 1..] == rest;
  }

  /**
   * The declaration pass removes `page:<value>;` in any case of `page`, for
   * any non-empty value that holds no `;` or `{`, whether the text it sits in
   * is CSS or not.
   */
  lemma DeclRemoved(w: string, value: string, rest: string)
    requires PageWord(w) && value != []
    requires forall k :: 0 <= k < |value| ==> value[k] != ';' && value[k] != '{'
    ensures Sub(PageDecl, w + ":" + value + ";" + rest) == Sub(PageDecl, rest)
  {
    var t := w + ":" + value + ";" + rest;
    var k := 5 + |value|;
    assert t[..4] == w;
    assert t[4] == ':';
    assert SkipSpaces(t, 4) == 4;
    assert forall j :: 5 <= j < k ==> t[j] == value[j - 5];
    assert t[k] == ';';
    assert IndexOfStop(t, 5) == Some(k);
    assert t[k + 1..] == rest;
  }

  /**
   * As written, a rule with a single space between `@page` and `{` (the
   * usual way to write one) is not a match: the `@` never starts a match,
   * so the rule's text stays in the output.
   */
  lemma SingleSpaceBlockNotMatched(at: string, decls: string, rest: string)
    requires AtPage(at)
    ensures var t := at + " {" + decls + "}" + rest;
      MatchEnd(PageBlock, t).None? && MatchEnd(PageDecl, t).None? && Sub(PageBlock, t) == "@" + Sub(PageBlock, t[1..])
  {
    var t := at + " {" + decls + "}" + rest;
    assert t[5] == ' ' && t[6] == '{';
    assert IndexOf(t, '{', 5) == Some(6);
    assert t[..4] != "page" by {
      assert t[0] == '@';
    }
    assert Lower(t[..4])[0] == '@';
  }

  /**
   * As written, `remove_page_rules` keeps a whole single-space `@page` rule:
   * neither pass matches anywhere in it, as long as its body holds no `@`
   * and no `p` in either case.
   */
  lemma AsWrittenKeepsSingleSpaceBlock(at: string, decls: string)
    requires AtPage(at)
    requires forall k :: 0 <= k < |decls| ==> decls[k] != '@' && LowerChar(decls[k]) != 'p'
    ensures RemovePageRulesAsWritten(at + " {" + decls + "}") == at + " {" + decls + "}"
  {
    BlockPassKeeps(at, decls);
    DeclPassKeeps(at, decls);
  }

  /** The letters after the `@` of an `AtPage` word. */
  lemma AtPageLetters(at: string)
    requires AtPage(at)
    ensures forall k :: 1 <= k < 5 ==> at[k] != '@'
    ensures forall k :: 2 <= k < 5 ==> LowerChar(at[k]) != 'p'
  {
    var w := at[1..];
    assert Lower(w)[0] == LowerChar(at[1]) && Lower(w)[1] == LowerChar(at[2]);
    assert Lower(w)[2] == LowerChar(at[3]) && Lower(w)[3] == LowerChar(at[4]);
    assert LowerChar(at[1]) == 'p' && LowerChar(at[2]) == 'a' && LowerChar(at[3]) == 'g' && LowerChar(at[4]) == 'e';
    forall k | 1 <= k < 5
      ensures at[k] != '@'
    {
      assert LowerChar('@') == '@';
    }
  }

  /** Where the parts of a single-space rule `at {decls}` stand. */
  lemma SingleSpaceRuleLayout(at: string, decls: string)
    requires |at| == 5
    ensures var t := at + " {" + decls + "}";
      && |t| == 8 + |decls| && t[..5] == at && t[5] == ' ' && t[6] == '{' && t[7 + |decls|] == '}'
      && forall k :: 0 <= k < |decls| ==> t[7 + k] == decls[k]
  {
  }

  /** After its first character, a single-space rule whose body holds no `@` has no `@`. */
  lemma RuleHasOneAt(at: string, decls: string)
    requires AtPage(at)
    requires forall k :: 0 <= k < |decls| ==> decls[k] != '@'
    ensures var t := at + " {" + decls + "}"; forall k :: 1 <= k < |t| ==> t[k] != '@'
  {
    var t := at + " {" + decls + "}";
    SingleSpaceRuleLayout(at, decls);
    AtPageLetters(at);
    forall k | 1 <= k < |t|
      ensures t[k] != '@'
    {
      if k < 5 {
        assert t[k] == t[..5][k] == at[k];
      } else if k < 7 {
        assert t[k] == ' ' || t[k] == '{';
      } else if k < 7 + |decls| {
        assert t[k] == decls[k - 7];
      } else {
        assert t[k] == '}';
      }
    }
  }

  /** After its `@p`, a single-space rule whose body holds no `p` has no `p` in either case. */
  lemma RuleHasOneP(at: string, decls: string)
    requires AtPage(at)
    requires forall k :: 0 <= k < |decls| ==> LowerChar(decls[k]) != 'p'
    ensures var t := at + " {" + decls + "}";
      && |t| >= 7 && t[5] == ' ' && t[6] == '{'
      && forall k :: 2 <= k < |t| ==> LowerChar(t[k]) != 'p'
  {
    var t := at + " {" + decls + "}";
    SingleSpaceRuleLayout(at, decls);
    AtPageLetters(at);
    forall k | 2 <= k < |t|
      ensures LowerChar(t[k]) != 'p'
    {
      if k < 5 {
        assert t[k] == t[..5][k] == at[k];
      } else if k < 7 {
        assert t[k] == ' ' || t[k] == '{';
      } else if k < 7 + |decls| {
        assert t[k] == decls[k - 7];
      } else {
        assert t[k] == '}';
      }
    }
  }

  /** The block pass as written keeps a single-space rule whose body holds no `@`. */
  lemma BlockPassKeeps(at: string, decls: string)
    requires AtPage(at)
    requires forall k :: 0 <= k < |decls| ==> decls[k] != '@'
    ensures Sub(PageBlock, at + " {" + decls + "}") == at + " {" + decls + "}"
  {
    var t := at + " {" + decls + "}";
    RuleHasOneAt(at, decls);
    SingleSpaceBlockNotMatched(at, decls, "");
    assert t + "" == t;
    assert [t[0]] == "@";
    SubAfterAt(t);
  }

  /** The declaration pass keeps a single-space rule whose body holds no `p` in either case. */
  lemma DeclPassKeeps(at: string, decls: string)
    requires AtPage(at)
    requires forall k :: 0 <= k < |decls| ==> LowerChar(decls[k]) != 'p'
    ensures Sub(PageDecl, at + " {" + decls + "}") == at + " {" + decls + "}"
  {
    var t := at + " {" + decls + "}";
    RuleHasOneP(at, decls);
    SingleSpaceBlockNotMatched(at, decls, "");
    assert t + "" == t;
    DeclAfterRuleHead(t);
  }

  /** A text whose only `@` is its first character is left alone by the block pass, once that `@` is. */
  lemma SubAfterAt(t: string)
    requires |t| >= 1 && forall k :: 1 <= k < |t| ==> t[k] != '@'
    requires Sub(PageBlock, t) == [t[0]] + Sub(PageBlock, t[1..])
    ensures Sub(PageBlock, t) == t
  {
    NoAtInTail(t);
    SubWithoutAt(t[1..]);
    ConsTail(t);
  }

  lemma NoAtInTail(t: string)
    requires |t| >= 1 && forall k :: 1 <= k < |t| ==> t[k] != '@'
    ensures forall k :: 0 <= k < |t[1..]| ==> t[1..][k] != '@'
  {
    assert forall k :: 0 <= k < |t[1..]| ==> t[1..][k] == t[k + 1];
  }

  lemma ConsTail(t: string)
    requires t != []
    ensures [t[0]] + t[1..] == t
  {
  }

  /**
   * A text that starts `@page {` (any case) and has no other `p` is left
   * alone by the declaration pass: the only `page` in it has no colon.
   */
  lemma DeclAfterRuleHead(t: string)
    requires |t| >= 7 && t[5] == ' ' && t[6] == '{'
    requires MatchEnd(PageDecl, t).None?
    requires forall k :: 2 <= k < |t| ==> LowerChar(t[k]) != 'p'
    ensures Sub(PageDecl, t) == t
  {
    DeclSkipsRuleHead(t);
    var v := t[2..];
    assert forall k :: 0 <= k < |v| ==> v[k] == t[k + 2];
    NoPNoMention(v);
    SubWithoutPage(PageDecl, v);
    assert t[..2] + v == t;
  }

  /** Neither of the first two characters of `@page {` starts a declaration. */
  lemma DeclSkipsRuleHead(t: string)
    requires |t| >= 7 && t[5] == ' ' && t[6] == '{'
    requires MatchEnd(PageDecl, t).None?
    ensures Sub(PageDecl, t) == t[..2] + Sub(PageDecl, t[2..])
  {
    var u := t[1..];
    NoColonNoDecl(u);
    SubKeepsFirst(PageDecl, t);
    SubKeepsFirst(PageDecl, u);
    var rest := Sub(PageDecl, t[2..]);
    assert u[1..] == t[2..];
    assert [t[0]] + ([u[0]] + rest) == ([t[0]] + [u[0]]) + rest;
    assert [t[0]] + [u[0]] == t[..2];
  }

  /** Where no match starts, the first character is kept and the scan moves on. */
  lemma SubKeepsFirst(p: Pattern, t: string)
    requires t != [] && MatchEnd(p, t).None?
    ensures Sub(p, t) == [t[0]] + Sub(p, t[1..])
  {
  }

  /** `page` followed by a space and then `{` is no declaration: the colon is missing. */
  lemma NoColonNoDecl(u: string)
    requires |u| >= 6 && u[4] == ' ' && u[5] == '{'
    ensures MatchEnd(PageDecl, u).None?
  {
    assert SkipSpaces(u, 5) == 5;
    assert SkipSpaces(u, 4) == 5;
  }

  /** The whole of `remove_page_rules` as written keeps `@page {}`. */
  lemma AsWrittenKeepsEmptyBlock()
    ensures RemovePageRulesAsWritten("@page {}") == "@page {}"
  {
    assert Lower("page") == "page";
    AsWrittenKeepsSingleSpaceBlock("@page", "");
    assert "@page" + " {" + "" + "}" == "@page {}";
  }

  /** The intended `remove_page_rules` removes `@page {}` entirely. */
  lemma IntendedRemovesEmptyBlock()
    ensures RemovePageRules("@page {}") == ""
  {
    var t := "@page {}";
    assert AtPage(t[..5]);
    assert t == t[..5] + " " + "{" + "" + "}" + "";
    IntendedBlockRemoved(t[..5], " ", "", "");
    assert !MentionsPage("") by {
      forall i: nat | i <= 0
        ensures !WordAtIgnoreCase("", i, "page")
      {
      }
    }
    SubWithoutPage(PageDecl, "");
  }

  /** The block pattern as written leaves alone text without an `@`. */
  lemma {:induction false} SubWithoutAt(u: string)
    requires forall k :: 0 <= k < |u| ==> u[k] != '@'
    decreases |u|
    ensures Sub(PageBlock, u) == u
  {
    if u != [] {
      SubWithoutAt(u[1..]);
      assert [u[0]] + u[1..] == u;
    }
  }

  /** Text with no `p` in either case cannot mention `page`. */
  lemma NoPNoMention(v: string)
    requires forall k :: 0 <= k < |v| ==> LowerChar(v[k]) != 'p'
    ensures !MentionsPage(v)
  {
    forall i: nat | i <= |v|
      ensures !WordAtIgnoreCase(v, i, "page")
    {
      if i + 4 <= |v| {
        assert Lower(v[i..i + 4])[0] == LowerChar(v[i]);
      }
    }
  }

  /** `re.sub(r'</?(html|head|body)[^>]*>', '', t, flags=re.IGNORECASE)`. */
  function StripWrapperTags(t: string): (r: string)
    ensures |r| <= |t|
    ensures (forall k :: 0 <= k < |t| ==> t[k] != '<') ==> r == t
  {
    if forall k :: 0 <= k < |t| ==> t[k] != '<' then
      SubWithoutTag(t);
      Sub(WrapperTag, t)
    else Sub(WrapperTag, t)
  }

  /** An opening or closing `html`, `head` or `body` tag, attributes and all, is removed. */
  lemma WrapperTagRemoved(slash: string, name: string, attrs: string, rest: string)
    requires slash == "" || slash == "/"
    requires |name| == 4 && (Lower(name) == "html" || Lower(name) == "head" || Lower(name) == "body")
    requires forall k :: 0 <= k < |attrs| ==> attrs[k] != '>'
    ensures Sub(WrapperTag, "<" + slash + name + attrs + ">" + rest) == Sub(WrapperTag, rest)
  {
    var t := "<" + slash + name + attrs + ">" + rest;
    var j := 1 + |slash|;
    var k := j + 4 + |attrs|;
    assert name[0] != '/' by {
      assert Lower(name)[0] == LowerChar(name[0]);
    }
    TagLayout(slash, name, attrs, rest);
    assert IndexOf(t, '>', j + 4) == Some(k);
    assert WrapperTagEnd(t) == Some(k + 1);
  }

  /** Where the parts of `<` + slash + name + attrs + `>` + rest stand. */
  lemma TagLayout(slash: string, name: string, attrs: string, rest: string)
    requires slash == "" || slash == "/"
    requires |name| == 4 && name[0] != '/'
    ensures var t := "<" + slash + name + attrs + ">" + rest;
      var j := 1 + |slash|;
      var k := j + 4 + |attrs|;
      && |t| == k + 1 + |rest| && t[0] == '<' && (|t| > 1 && t[1] == '/' <==> slash == "/")
      && t[j..j + 4] == name && (forall i :: j + 4 <= i < k ==> t[i] == attrs[i - j - 4])
      && t[k] == '>' && t[k + 1..] == rest
  {
    var t := "<" + slash + name + attrs + ">" + rest;
    var j := 1 + |slash|;
    var head := "<" + slash;
    var tail := attrs + ">" + rest;
    assert t == head + (name + tail);
    assert t[j..] == name + tail;
    assert t[j..j + 4] == name;
    assert t[j + 4..] == tail;
    if slash == "" {
      assert t[1] == name[0];
    }
  }
}
