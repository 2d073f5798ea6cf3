/**
 * The Python string built-ins the converters rely on, stated over `string`
 * (a sequence of Unicode scalar values): `str.strip()`, `str.lower()` for the
 * ASCII letters, `sep.join(parts)`, `str.replace`, `str.split`, `str.find`,
 * `str.rfind` and `html.escape`.
 */
module Text {

  import opened Wrappers

  // ---- Whitespace and strip ------------------------------------------------

  /** `c.isspace()`: the characters `str.strip()` removes and the regex class `\s` matches. */
  predicate IsSpace(c: char) {
    || ('\t' <= c <= '\r')
    || ('\U{1c}' <= c <= '\U{1f}')
    || c == ' ' || c == '\U{85}' || c == '\U{a0}' || c == '\U{1680}'
    || ('\U{2000}' <= c <= '\U{200a}')
    || c == '\U{2028}' || c == '\U{2029}' || c == '\U{202f}' || c == '\U{205f}' || c == '\U{3000}'
  }

  /** `s.lstrip()`. */
  function LStrip(s: string): (r: string)
    ensures |r| <= |s|
  {
    if s != [] && IsSpace(s[0]) then LStrip(s[1..]) else s
  }

  /** `s.rstrip()`. */
  function RStrip(s: string): (r: string)
    ensures |r| <= |s|
  {
    if s != [] && IsSpace(s[|s| - 1]) then RStrip(s[..|s| - 1]) else s
  }

  /** `lstrip` leaves the suffix of `s` that follows its leading whitespace. */
  lemma {:induction false} LStripSpec(s: string)
    ensures var r := LStrip(s);
      && r == s[|s| - |r|..]
      && (r != [] ==> !IsSpace(r[0]))
      && forall k :: 0 <= k < |s| - |r| ==> IsSpace(s[k])
  {
    if s != [] && IsSpace(s[0]) {
      LStripSpec(s[1..]);
    }
  }

  /** `rstrip` leaves the prefix of `s` that precedes its trailing whitespace. */
  lemma {:induction false} RStripSpec(s: string)
    ensures var r := RStrip(s);
      && r == s[..|r|]
      && (r != [] ==> !IsSpace(r[|r| - 1]))
      && forall k :: |r| <= k < |s| ==> IsSpace(s[k])
  {
    if s != [] && IsSpace(s[|s| - 1]) {
      RStripSpec(s[..|s| - 1]);
    }
  }

  /** Where the stripped text starts inside `s`. */
  function StripStart(s: string): nat {
    |s| - |LStrip(s)|
  }

  /** `s.strip()`. */
  function Strip(s: string): (r: string)
    ensures |r| <= |s|
  {
    RStrip(LStrip(s))
  }

  /**
   * `strip` leaves the slice of `s` that starts and ends with a non-space
   * character, with only whitespace before and after it.
   */
  lemma StripSpec(s: string)
    ensures var r := Strip(s);
      && StripStart(s) + |r| <= |s| && r == s[StripStart(s)..StripStart(s) + |r|]
      && (forall k :: 0 <= k < StripStart(s) ==> IsSpace(s[k]))
      && (forall k :: StripStart(s) + |r| <= k < |s| ==> IsSpace(s[k]))
      && (r != [] ==> !IsSpace(r[0]) && !IsSpace(r[|r| - 1]))
  {
    var l := LStrip(s);
    var st := StripStart(s);
    LStripSpec(s);
    RStripSpec(l);
    var r := RStrip(l);
    PrefixOfSuffix(s, st, r);
    AllAfterShift(s, st, |r|, IsSpace);
    assert r != [] ==> r[0] == l[0];
  }

  /** A prefix of the suffix `s[st..]` is a slice of `s`. */
  lemma PrefixOfSuffix(s: string, st: nat, r: string)
    requires st <= |s| && |r| <= |s| - st && r == s[st..][..|r|]
    ensures r == s[st..st + |r|]
  {
  }

  /** A property of every character of `s[st..]` from `n` on holds of `s` from `st + n` on. */
  lemma AllAfterShift(s: string, st: nat, n: nat, p: char -> bool)
    requires st <= |s| && forall k :: n <= k < |s[st..]| ==> p(s[st..][k])
    ensures forall k :: st + n <= k < |s| ==> p(s[k])
  {
    forall k | st + n <= k < |s|
      ensures p(s[k])
    {
      assert s[k] == s[st..][k - st];
    }
  }

  /** A string made only of whitespace strips to the empty string, and only such a string does. */
  lemma StripEmptyIff(s: string)
    ensures Strip(s) == "" <==> forall k :: 0 <= k < |s| ==> IsSpace(s[k])
  {
    StripSpec(s);
    var r := Strip(s);
    if r != "" {
      assert s[StripStart(s)] == r[0];
    }
  }

  /** Text that neither starts nor ends with whitespace is left alone by `strip`. */
  lemma StripUnchanged(s: string)
    requires s == [] || (!IsSpace(s[0]) && !IsSpace(s[|s| - 1]))
    ensures Strip(s) == s
  {
    assert LStrip(s) == s;
    assert RStrip(s) == s;
  }

  /** Stripping twice is stripping once. */
  lemma StripIdempotent(s: string)
    ensures Strip(Strip(s)) == Strip(s)
  {
    StripSpec(s);
    StripUnchanged(Strip(s));
  }

  // ---- Case ------------------------------------------------------------------

  /** `c.lower()` for the ASCII capitals; every other character is left alone. */
  function LowerChar(c: char): (l: char)
    ensures 'A' <= c <= 'Z' ==> 'a' <= l <= 'z' && l as int == c as int + 32
    ensures !('A' <= c <= 'Z') ==> l == c
  {
    if 'A' <= c <= 'Z' then (c as int + 32) as char else c
  }

  /** `s.lower()`, character by character. */
  function Lower(s: string): (r: string)
    ensures |r| == |s|
    ensures forall k :: 0 <= k < |s| ==> r[k] == LowerChar(s[k])
  {
    if s == [] then [] else [LowerChar(s[0])] + Lower(s[1..])
  }

  /** `t[i:i+len(word)].lower() == word`: the lower-case `word` stands at `i` in `t`, ignoring case. */
  predicate WordAtIgnoreCase(t: string, i: nat, word: string) {
    i + |word| <= |t| && Lower(t[i..i + |word|]) == word
  }

  // ---- Prefixes, occurrences and searching ---------------------------------

  predicate StartsWith(s: string, p: string) {
    |p| <= |s| && s[..|p|] == p
  }

  /** `sub` occurs in `s` starting at index `i`. */
  predicate OccursAt(s: string, sub: string, i: nat) {
    i + |sub| <= |s| && s[i..i + |sub|] == sub
  }

  /** `sub in s`. */
  predicate Contains(s: string, sub: string) {
    exists i: nat | i <= |s| :: OccursAt(s, sub, i)
  }

  /** `t.find(c, from)`: the first index at or after `from` that holds `c`, if any. */
  function IndexOf(t: string, c: char, from: nat): (k: Option<nat>)
    decreases |t| - from
    ensures k.Some? ==> from <= k.value < |t| && t[k.value] == c
    ensures k.Some? ==> forall j :: from <= j < k.value ==> t[j] != c
    ensures k.None? ==> forall j :: from <= j < |t| ==> t[j] != c
  {
    if from >= |t| then None
    else if t[from] == c then Some(from)
    else IndexOf(t, c, from + 1)
  }

  /** The last index below `n` that holds `c`, or -1. */
  function LastIndexBelow(s: string, c: char, n: nat): (k: int)
    requires n <= |s|
    ensures -1 <= k < n
    ensures k >= 0 ==> s[k] == c && forall j :: k < j < n ==> s[j] != c
    ensures k == -1 ==> forall j :: 0 <= j < n ==> s[j] != c
  {
    if n == 0 then -1
    else if s[n - 1] == c then n - 1
    else LastIndexBelow(s, c, n - 1)
  }

  /** `s.rfind(c)`: the last index holding `c`, or -1. */
  function RFind(s: string, c: char): (k: int)
    ensures -1 <= k < |s|
    ensures k >= 0 ==> s[k] == c && forall j :: k < j < |s| ==> s[j] != c
    ensures k == -1 ==> forall j :: 0 <= j < |s| ==> s[j] != c
  {
    LastIndexBelow(s, c, |s|)
  }

  // ---- Join --------------------------------------------------------------------

  /** `sep.join(parts)`. */
  function JoinWith(sep: string, parts: seq<string>): string {
    if |parts| == 0 then ""
    else if |parts| == 1 then parts[0]
    else parts[0] + sep + JoinWith(sep, parts[1..])
  }

  /** Joining one more part puts a single separator before it. */
  lemma {:induction false} JoinWithSnoc(sep: string, parts: seq<string>, x: string)
    ensures JoinWith(sep, parts + [x]) == if parts == [] then x else JoinWith(sep, parts) + sep + x
  {
    if |parts| > 1 {
      assert (parts + [x])[1..] == parts[1..] + [x];
      JoinWithSnoc(sep, parts[1..], x);
    }
  }

  /** Text glued onto the front of the first part comes out at the front of the join. */
  lemma JoinWithConsHead(sep: string, c: string, parts: seq<string>)
    requires |parts| >= 1
    ensures JoinWith(sep, [c + parts[0]] + parts[1..]) == c + JoinWith(sep, parts)
  {
    if |parts| > 1 {
      assert ([c + parts[0]] + parts[1..])[1..] == parts[1..];
    }
  }

  /** A join of non-empty parts is empty exactly when there are no parts. */
  lemma JoinWithEmptyIff(sep: string, parts: seq<string>)
    requires forall k :: 0 <= k < |parts| ==> parts[k] != ""
    ensures JoinWith(sep, parts) == "" <==> parts == []
  {
    if |parts| > 1 {
      assert |JoinWith(sep, parts)| >= |parts[0]|;
    }
  }

  // ---- Replace and split -----------------------------------------------------

  /** `s.replace(pat, rep)`: every occurrence, scanning left to right without overlap. */
  function ReplaceAll(s: string, pat: string, rep: string): string
    requires pat != []
    decreases |s|
  {
    if |s| < |pat| then s
    else if s[..|pat|] == pat then rep + ReplaceAll(s[|pat|..], pat, rep)
    else [s[0]] + ReplaceAll(s[1..], pat, rep)
  }

  /** `s.split(sep)`: the pieces between the occurrences of `sep`, scanning left to right. */
  function Split(s: string, sep: string): (parts: seq<string>)
    requires sep != []
    decreases |s|
    ensures |parts| >= 1
  {
    if |s| < |sep| then [s]
    else if s[..|sep|] == sep then [""] + Split(s[|sep|..], sep)
    else var r := Split(s[1..], sep); [[s[0]] + r[0]] + r[1..]
  }

  /** Python's identity `s.replace(a, b) == b.join(s.split(a))`. */
  lemma {:induction false} ReplaceIsJoinOfSplit(s: string, pat: string, rep: string)
    requires pat != []
    decreases |s|
    ensures ReplaceAll(s, pat, rep) == JoinWith(rep, Split(s, pat))
  {
    if |s| < |pat| {
    } else if s[..|pat|] == pat {
      ReplaceIsJoinOfSplit(s[|pat|..], pat, rep);
      var p := Split(s[|pat|..], pat);
      assert ([""] + p)[1..] == p;
    } else {
      ReplaceIsJoinOfSplit(s[1..], pat, rep);
      JoinWithConsHead(rep, [s[0]], Split(s[1..], pat));
    }
  }

  /** Replacing a string by itself changes nothing. */
  lemma {:induction false} ReplaceWithItself(s: string, pat: string)
    requires pat != []
    decreases |s|
    ensures ReplaceAll(s, pat, pat) == s
  {
    if |s| < |pat| {
    } else if s[..|pat|] == pat {
      ReplaceWithItself(s[|pat|..], pat);
      assert pat + s[|pat|..] == s;
    } else {
      ReplaceWithItself(s[1..], pat);
      assert [s[0]] + s[1..] == s;
    }
  }

  /** Splitting and joining back with the same separator restores the string. */
  lemma SplitJoinRoundTrip(s: string, sep: string)
    requires sep != []
    ensures JoinWith(sep, Split(s, sep)) == s
  {
    ReplaceIsJoinOfSplit(s, sep, sep);
    ReplaceWithItself(s, sep);
  }

  /** A string with no occurrence of `pat` comes back from `replace` unchanged. */
  lemma {:induction false} ReplaceAbsent(s: string, pat: string, rep: string)
    requires pat != []
    requires !Contains(s, pat)
    decreases |s|
    ensures ReplaceAll(s, pat, rep) == s
  {
    if |s| < |pat| {
    } else {
      assert !OccursAt(s, pat, 0);
      assert s[..|pat|] != pat;
      forall i: nat | OccursAt(s[1..], pat, i)
        ensures OccursAt(s, pat, i + 1)
      {
        assert s[1..][i..i + |pat|] == s[i + 1..i + 1 + |pat|];
      }
      ReplaceAbsent(s[1..], pat, rep);
      assert [s[0]] + s[1..] == s;
    }
  }

  /** Splitting text that holds no character `sep[0]` leaves it whole. */
  lemma {:induction false} SplitWithoutSeparator(p: string, sep: string)
    requires sep != []
    requires forall k :: 0 <= k < |p| ==> p[k] != sep[0]
    decreases |p|
    ensures Split(p, sep) == [p]
  {
    if |p| >= |sep| {
      assert p[..|sep|][0] == p[0];
      SplitWithoutSeparator(p[1..], sep);
      assert [p[0]] + p[1..] == p;
    }
  }

  /** A separator right after a piece free of `sep[0]` ends exactly that piece. */
  lemma {:induction false} SplitAtSeparator(p: string, sep: string, x: string)
    requires sep != []
    requires forall k :: 0 <= k < |p| ==> p[k] != sep[0]
    decreases |p|
    ensures Split(p + sep + x, sep) == [p] + Split(x, sep)
  {
    var t := p + sep + x;
    if p == [] {
      assert t == sep + x && t[..|sep|] == sep && t[|sep|..] == x;
    } else {
      assert t[..|sep|][0] == p[0];
      assert t[1..] == p[1..] + sep + x;
      SplitAtSeparator(p[1..], sep, x);
      assert [p[0]] + p[1..] == p;
    }
  }

  /**
   * Joining pieces that hold no `sep[0]` and splitting the result on `sep`
   * gives the pieces back.
   */
  lemma {:induction false} SplitJoinInverse(sep: string, parts: seq<string>)
    requires sep != [] && parts != []
    requires forall i, k :: 0 <= i < |parts| && 0 <= k < |parts[i]| ==> parts[i][k] != sep[0]
    ensures Split(JoinWith(sep, parts), sep) == parts
  {
    if |parts| == 1 {
      SplitWithoutSeparator(parts[0], sep);
    } else {
      SplitJoinInverse(sep, parts[1..]);
      SplitAtSeparator(parts[0], sep, JoinWith(sep, parts[1..]));
      assert [parts[0]] + parts[1..] == parts;
    }
  }

  // ---- HTML escaping ------------------------------------------------------------

  /** The characters `html.escape(s, quote=True)` rewrites never appear. */
  predicate NoMarkup(t: string) {
    forall k :: 0 <= k < |t| ==> t[k] != '<' && t[k] != '>' && t[k] != '"' && t[k] != '\''
  }

  function EscapeChar(c: char): (r: string)
    ensures |r| >= 1 && NoMarkup(r)
  {
    if c == '&' then "&amp;"
    else if c == '<' then "&lt;"
    else if c == '>' then "&gt;"
    else if c == '"' then "&quot;"
    else if c == '\'' then "&#x27;"
    else [c]
  }

  /** `html.escape(s)`: the result holds no markup character and is no shorter than `s`. */
  function HtmlEscape(s: string): (r: string)
    ensures |r| >= |s|
    ensures NoMarkup(r)
  {
    if s == [] then [] else EscapeChar(s[0]) + HtmlEscape(s[1..])
  }

  /** Text without `&` or markup characters is its own escape. */
  lemma {:induction false} EscapeUnchanged(s: string)
    requires NoMarkup(s) && forall k :: 0 <= k < |s| ==> s[k] != '&'
    ensures HtmlEscape(s) == s
  {
    if s != [] {
      EscapeUnchanged(s[1..]);
      assert [s[0]] + s[1..] == s;
    }
  }

  /** Decodes the five character references `HtmlEscape` produces. */
  function HtmlUnescape(s: string): string
    decreases |s|
  {
    if s == [] then []
    else if StartsWith(s, "&amp;") then "&" + HtmlUnescape(s[5..])
    else if StartsWith(s, "&lt;") then "<" + HtmlUnescape(s[4..])
    else if StartsWith(s, "&gt;") then ">" + HtmlUnescape(s[4..])
    else if StartsWith(s, "&quot;") then "\"" + HtmlUnescape(s[6..])
    else if StartsWith(s, "&#x27;") then "'" + HtmlUnescape(s[6..])
    else [s[0]] + HtmlUnescape(s[1..])
  }

  /** Decoding one escaped character followed by more text gives back that character first. */
  lemma UnescapeStep(c: char, rest: string)
    ensures HtmlUnescape(EscapeChar(c) + rest) == [c] + HtmlUnescape(rest)
  {
    if c == '&' {
      UnescapeAmp(rest);
    } else if c == '<' {
      UnescapeLt(rest);
    } else if c == '>' {
      UnescapeGt(rest);
    } else if c == '"' {
      UnescapeQuot(rest);
    } else if c == '\'' {
      UnescapeApos(rest);
    } else {
      UnescapePlain(c, rest);
    }
  }

  /** `&amp;` at the front decodes to `&`. */
  lemma UnescapeAmp(rest: string)
    ensures HtmlUnescape("&amp;" + rest) == "&" + HtmlUnescape(rest)
  {
    var t := "&amp;" + rest;
    assert t[..5] == "&amp;" && t[5..] == rest;
  }

  /** `&lt;` at the front decodes to `<`. */
  lemma UnescapeLt(rest: string)
    ensures HtmlUnescape("&lt;" + rest) == "<" + HtmlUnescape(rest)
  {
    var t := "&lt;" + rest;
    assert t[1] == 'l';
    assert !StartsWith(t, "&amp;") by { assert "&amp;"[1] == 'a'; }
    assert t[..4] == "&lt;" && t[4..] == rest;
  }

  /** `&gt;` at the front decodes to `>`. */
  lemma UnescapeGt(rest: string)
    ensures HtmlUnescape("&gt;" + rest) == ">" + HtmlUnescape(rest)
  {
    var t := "&gt;" + rest;
    assert t[1] == 'g';
    assert !StartsWith(t, "&amp;") by { assert "&amp;"[1] == 'a'; }
    assert !StartsWith(t, "&lt;") by { assert "&lt;"[1] == 'l'; }
    assert t[..4] == "&gt;" && t[4..] == rest;
  }

  /** `&quot;` at the front decodes to `"`. */
  lemma UnescapeQuot(rest: string)
    ensures HtmlUnescape("&quot;" + rest) == "\"" + HtmlUnescape(rest)
  {
    var t := "&quot;" + rest;
    assert t[1] == 'q';
    assert !StartsWith(t, "&amp;") by { assert "&amp;"[1] == 'a'; }
    assert !StartsWith(t, "&lt;") by { assert "&lt;"[1] == 'l'; }
    assert !StartsWith(t, "&gt;") by { assert "&gt;"[1] == 'g'; }
    assert t[..6] == "&quot;" && t[6..] == rest;
  }

  /** `&#x27;` at the front decodes to `'`. */
  lemma UnescapeApos(rest: string)
    ensures HtmlUnescape("&#x27;" + rest) == "'" + HtmlUnescape(rest)
  {
    var t := "&#x27;" + rest;
    assert t[1] == '#';
    assert !StartsWith(t, "&amp;") by { assert "&amp;"[1] == 'a'; }
    assert !StartsWith(t, "&lt;") by { assert "&lt;"[1] == 'l'; }
    assert !StartsWith(t, "&gt;") by { assert "&gt;"[1] == 'g'; }
    assert !StartsWith(t, "&quot;") by { assert "&quot;"[1] == 'q'; }
    assert t[..6] == "&#x27;" && t[6..] == rest;
  }

  /** A character that needs no entity reads back as itself. */
  lemma UnescapePlain(c: char, rest: string)
    requires c != '&' && c != '<' && c != '>' && c != '"' && c != '\''
    ensures HtmlUnescape(EscapeChar(c) + rest) == [c] + HtmlUnescape(rest)
  {
    var t := [c] + rest;
    assert EscapeChar(c) + rest == t;
    assert t[0] == c && t[1..] == rest;
    assert !StartsWith(t, "&amp;") && !StartsWith(t, "&lt;") && !StartsWith(t, "&gt;")
        && !StartsWith(t, "&quot;") && !StartsWith(t, "&#x27;") by {
      assert t[..1] == [c];
    }
  }

  /** Escaping loses nothing: the text can be read back exactly. */
  lemma {:induction false} EscapeRoundTrip(s: string)
    ensures HtmlUnescape(HtmlEscape(s)) == s
  {
    if s != [] {
      EscapeRoundTrip(s[1..]);
      UnescapeStep(s[0], HtmlEscape(s[1..]));
      assert [s[0]] + s[1..] == s;
    }
  }
}
