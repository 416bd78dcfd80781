/** The Discord notification service: text sanitising, quantity and URL
    formatting, the embed field lists of the six notifiers, and the choice
    between a direct message and the channel webhook. HTTP calls are
    outcomes handed in as parameters. */
module Notifications {
  import opened Wrappers
  import opened Text
  import Avatars

  // ---------------------------------------------------------------------
  // Configuration and URLs
  // ---------------------------------------------------------------------

  /** The environment the service reads. */
  datatype Config = Config(webhookUrl: Option<string>, botToken: Option<string>, frontendUrl: Option<string>)

  /** A truthy environment variable: present and non-empty. */
  predicate Present(v: Option<string>) {
    v.Some? && v.value != ""
  }

  /** Some way of reaching Discord is configured. */
  predicate IsConfigured(c: Config) {
    Present(c.webhookUrl) || Present(c.botToken)
  }

  const DefaultFrontendUrl: string := "http://localhost:5173"
  const MarketplacePath: string := "/marketplace"
  const ListingQuery: string := "?listing="

  function FrontendUrl(c: Config): string {
    if Present(c.frontendUrl) then c.frontendUrl.value else DefaultFrontendUrl
  }

  /** The marketplace page, deep-linked to a listing when an id is given. */
  function MarketplaceUrl(c: Config, listingId: Option<string>): (r: string)
    ensures StartsWith(r, FrontendUrl(c) + MarketplacePath)
    ensures !Present(listingId) ==> r == FrontendUrl(c) + MarketplacePath
  {
    var base := FrontendUrl(c) + MarketplacePath;
    if Present(listingId) then base + ListingQuery + listingId.value else base
  }

  /** Reads the listing id back out of a marketplace URL. */
  function LinkedListing(c: Config, url: string): Option<string> {
    var base := FrontendUrl(c) + MarketplacePath;
    if StartsWith(url, base + ListingQuery) then Some(url[|base + ListingQuery|..]) else None
  }

  /** The deep link names exactly the listing it was built for. */
  lemma MarketplaceUrlRoundTrip(c: Config, listingId: Option<string>)
    ensures LinkedListing(c, MarketplaceUrl(c, listingId)) == if Present(listingId) then listingId else None
  {
    var base := FrontendUrl(c) + MarketplacePath;
    var url := MarketplaceUrl(c, listingId);
    if Present(listingId) {
      assert url == (base + ListingQuery) + listingId.value;
      assert url[..|base + ListingQuery|] == base + ListingQuery;
    } else {
      assert url == base;
    }
  }

  // ---------------------------------------------------------------------
  // formatQuantity
  // ---------------------------------------------------------------------

  const Infinity: string := "\U{221E}"

  /** -1 is the marketplace's "unlimited"; anything else is its decimal form. */
  function FormatQuantity(q: int): (r: string)
    ensures q == -1 ==> r == Infinity
    ensures q != -1 ==> r == IntToString(q)
  {
    if q == -1 then Infinity else IntToString(q)
  }

  /** A formatted quantity reads back as the quantity, and distinct
      quantities are told apart. */
  lemma FormatQuantityReadsBack(a: int, b: int)
    ensures a != -1 ==> ParseInt(FormatQuantity(a)) == Some(a)
    ensures FormatQuantity(a) == FormatQuantity(b) ==> a == b
  {
    IntToStringRoundTrip(a);
    IntToStringRoundTrip(b);
    assert ParseInt(Infinity).None?;
  }

  // ---------------------------------------------------------------------
  // sanitizeForDiscord, one function per replacement pass
  // ---------------------------------------------------------------------

  /** The characters the first pass escapes: `*`, `_`, backquote, `~`, `|`
      and backslash. */
  predicate IsMarkdown(c: char) {
    c == '*' || c == '_' || c == '`' || c == '~' || c == '|' || c == '\\'
  }

  /** `s` read as a run of tokens, each either a backslash followed by a
      markdown character or a single non-markdown character. */
  predicate WellEscaped(s: string)
    decreases |s|
  {
    if |s| == 0 then true
    else if s[0] == '\\' then |s| >= 2 && IsMarkdown(s[1]) && WellEscaped(s[2..])
    else !IsMarkdown(s[0]) && WellEscaped(s[1..])
  }

  predicate NoMarkdown(s: string) {
    forall i :: 0 <= i < |s| ==> !IsMarkdown(s[i])
  }

  /** Pass 1: a backslash before every markdown character. */
  function EscapeMarkdown(s: string): (r: string)
    ensures WellEscaped(r)
    ensures NoMarkdown(s) ==> r == s
    ensures |r| == 0 <==> |s| == 0
    ensures '@' !in s ==> '@' !in r
    ensures '<' !in s ==> '<' !in r
    decreases |s|
  {
    if |s| == 0 then ""
    else
      var rest := EscapeMarkdown(s[1..]);
      if IsMarkdown(s[0]) then
        assert (['\\', s[0]] + rest)[2..] == rest;
        ['\\', s[0]] + rest
      else
        assert ([s[0]] + rest)[1..] == rest;
        [s[0]] + rest
  }

  /** Drops the backslash of every escape pair. */
  function Unescape(s: string): string
    decreases |s|
  {
    if |s| == 0 then ""
    else if s[0] == '\\' && |s| >= 2 then [s[1]] + Unescape(s[2..])
    else [s[0]] + Unescape(s[1..])
  }

  /** Escaping loses nothing: unescaping gives the input back. */
  lemma {:induction false} UnescapeEscape(s: string)
    ensures Unescape(EscapeMarkdown(s)) == s
    decreases |s|
  {
    if |s| > 0 {
      UnescapeEscape(s[1..]);
      var rest := EscapeMarkdown(s[1..]);
      if IsMarkdown(s[0]) {
        assert (['\\', s[0]] + rest)[2..] == rest;
      } else {
        assert ([s[0]] + rest)[1..] == rest;
      }
    }
  }

  /** Every well-escaped string is the escaping of something, namely of its
      unescaping. */
  lemma {:induction false} WellEscapedIsEscaped(r: string)
    requires WellEscaped(r)
    ensures EscapeMarkdown(Unescape(r)) == r
    decreases |r|
  {
    if |r| > 0 {
      if r[0] == '\\' {
        WellEscapedIsEscaped(r[2..]);
        assert Unescape(r) == [r[1]] + Unescape(r[2..]);
        assert ([r[1]] + Unescape(r[2..]))[1..] == Unescape(r[2..]);
        assert r == ['\\', r[1]] + r[2..];
      } else {
        WellEscapedIsEscaped(r[1..]);
        assert ([r[0]] + Unescape(r[1..]))[1..] == Unescape(r[1..]);
        assert r == [r[0]] + r[1..];
      }
    }
  }

  /** The zero-width space the mention passes insert after an `@`. */
  const ZeroWidthSpace: char := '\U{200B}'

  /** `s` starts with the lower-case ASCII `word`, ignoring case. */
  predicate StartsWithIgnoringCase(s: string, word: string) {
    |word| <= |s| && forall i :: 0 <= i < |word| ==> LowerAscii(s[i]) == word[i]
  }

  /** `@everyone` or `@here` in any case starts at the head of `s`. */
  predicate MassMentionAt(s: string) {
    |s| > 0 && s[0] == '@' && (StartsWithIgnoringCase(s[1..], "everyone") || StartsWithIgnoringCase(s[1..], "here"))
  }

  /** Pass 2: a zero-width space after the `@` of every `@everyone` and
      `@here`, any case. A match never contains a second `@`, so inserting
      after each `@` that starts one is the global replacement. */
  function BreakMassMentions(s: string): (r: string)
    ensures |r| == 0 <==> |s| == 0
    ensures |s| > 0 ==> r[0] == s[0]
    ensures '@' !in s ==> r == s
    ensures '<' !in s ==> '<' !in r
    decreases |s|
  {
    if |s| == 0 then ""
    else
      var rest := BreakMassMentions(s[1..]);
      assert '<' !in s ==> '<' !in s[1..];
      if MassMentionAt(s) then ['@', ZeroWidthSpace] + rest
      else
        assert '@' !in s ==> '@' !in s[1..];
        [s[0]] + rest
  }

  /** No `@` is directly followed by a word character, so Discord resolves
      no mention. */
  predicate NoBareMention(s: string) {
    forall i :: 0 <= i < |s| - 1 && s[i] == '@' ==> !IsWordChar(s[i + 1])
  }

  /** Pass 3: a zero-width space after every `@` followed by a word
      character. */
  function BreakWordMentions(s: string): (r: string)
    ensures |r| == 0 <==> |s| == 0
    ensures |s| > 0 ==> r[0] == s[0]
    ensures NoBareMention(r)
    ensures '@' !in s ==> r == s
    ensures '<' !in s ==> '<' !in r
    decreases |s|
  {
    if |s| == 0 then ""
    else
      var rest := BreakWordMentions(s[1..]);
      assert '@' !in s ==> '@' !in s[1..];
      if s[0] == '@' && |s| > 1 && IsWordChar(s[1]) then
        var r := ['@', ZeroWidthSpace] + rest;
        assert forall i :: 2 <= i < |r| ==> r[i] == rest[i - 2];
        r
      else
        var r := [s[0]] + rest;
        assert forall i :: 1 <= i < |r| ==> r[i] == rest[i - 1];
        r
  }

  /** A character that cannot start a mention is copied by pass 3. */
  lemma BreakWordMentionsCons(c: char, b: string)
    requires !(c == '@' && |b| > 0 && IsWordChar(b[0]))
    ensures BreakWordMentions([c] + b) == [c] + BreakWordMentions(b)
  {
    assert ([c] + b)[1..] == b;
  }

  /** An `@` already followed by a zero-width space is left alone by
      pass 3. */
  lemma BreakWordMentionsOfBroken(b: string)
    ensures BreakWordMentions(['@', ZeroWidthSpace] + b) == ['@', ZeroWidthSpace] + BreakWordMentions(b)
  {
    var zb := [ZeroWidthSpace] + b;
    var w := BreakWordMentions(b);
    assert BreakWordMentions(zb) == [ZeroWidthSpace] + w by {
      BreakWordMentionsCons(ZeroWidthSpace, b);
    }
    assert BreakWordMentions(['@', ZeroWidthSpace] + b) == ['@'] + BreakWordMentions(zb) by {
      assert ['@', ZeroWidthSpace] + b == ['@'] + zb;
      BreakWordMentionsCons('@', zb);
    }
    ConsTwice('@', ZeroWidthSpace, w);
  }

  lemma ConsTwice<T>(x: T, y: T, w: seq<T>)
    ensures [x] + ([y] + w) == [x, y] + w
  {
  }

  /** The word after a mass mention starts with a letter. */
  lemma MassMentionIsWordMention(s: string)
    requires MassMentionAt(s)
    ensures |s| > 1 && IsWordChar(s[1])
  {
    var t := s[1..];
    if StartsWithIgnoringCase(t, "everyone") {
      assert LowerAscii(t[0]) == 'e';
    } else {
      assert LowerAscii(t[0]) == 'h';
    }
  }

  /** Pass 2 is subsumed by pass 3: every mass mention is also a word
      mention, and once broken it no longer matches, so dropping pass 2
      would not change the output. */
  lemma {:induction false} MassMentionPassIsRedundant(s: string)
    ensures BreakWordMentions(BreakMassMentions(s)) == BreakWordMentions(s)
    decreases |s|
  {
    if |s| > 0 {
      MassMentionPassIsRedundant(s[1..]);
      var b := BreakMassMentions(s[1..]);
      if MassMentionAt(s) {
        BreakWordMentionsOfBroken(b);
        MassMentionIsWordMention(s);
      } else {
        assert BreakMassMentions(s) == [s[0]] + b;
        if s[0] == '@' && |s| > 1 && IsWordChar(s[1]) {
          assert BreakWordMentions([s[0]] + b) == ['@', ZeroWidthSpace] + BreakWordMentions(b) by {
            assert ([s[0]] + b)[1..] == b;
          }
        } else {
          BreakWordMentionsCons(s[0], b);
        }
      }
    }
  }

  /** The length of a `prefix`, one or more digits and `>` at the head of
      `s`, or 0 when there is none there. The digit run is taken whole:
      `>` is not a digit, so no shorter run could be followed by it. */
  function TagLength(s: string, prefix: string): (n: nat)
    ensures n == 0 || |prefix| + 2 <= n <= |s|
    ensures n > 0 ==> StartsWith(s, prefix)
  {
    if !StartsWith(s, prefix) then 0
    else
      var digits := DigitRun(s[|prefix|..], 10);
      if digits > 0 && |prefix| + digits < |s| && s[|prefix| + digits] == '>' then |prefix| + digits + 1 else 0
  }

  /** The first of `prefixes` that opens a tag at the head of `s`, as the
      length of that tag, or 0. */
  function FirstTag(s: string, prefixes: seq<string>): (n: nat)
    ensures n == 0 || 2 <= n <= |s|
    ensures OpensWithAngle(prefixes) && n > 0 ==> s[0] == '<'
    decreases |prefixes|
  {
    if |prefixes| == 0 then 0
    else
      var n := TagLength(s, prefixes[0]);
      if n > 0 then n else FirstTag(s, prefixes[1..])
  }

  /** A replacement text that cannot start or extend a mention. */
  predicate SafeReplacement(repl: string) {
    |repl| > 0 && !IsWordChar(repl[0]) && '@' !in repl && '<' !in repl
  }

  /** Passes 4 to 6: every tag `prefix digits >` for one of `prefixes`,
      left to right and without overlap, becomes `repl`. */
  function ReplaceTags(s: string, prefixes: seq<string>, repl: string): (r: string)
    requires SafeReplacement(repl)
    ensures NoBareMention(s) ==> NoBareMention(r)
    ensures |s| > 0 ==> |r| > 0 && (r[0] == s[0] || r[0] == repl[0])
    ensures |s| == 0 ==> r == ""
    ensures '<' !in s && OpensWithAngle(prefixes) ==> r == s
    decreases |s|
  {
    if |s| == 0 then ""
    else
      var n := FirstTag(s, prefixes);
      if n > 0 then
        var rest := ReplaceTags(s[n..], prefixes, repl);
        NoBareMentionSuffix(s, n);
        assert repl[|repl| - 1] in repl;
        NoBareMentionConcat(repl, rest);
        repl + rest
      else
        var rest := ReplaceTags(s[1..], prefixes, repl);
        NoBareMentionSuffix(s, 1);
        assert NoBareMention(s) && s[0] == '@' && |rest| > 0 ==> !IsWordChar(rest[0]);
        NoBareMentionConcat([s[0]], rest);
        assert '<' !in s ==> '<' !in s[1..];
        [s[0]] + rest
  }

  /** A suffix keeps `NoBareMention`. */
  lemma NoBareMentionSuffix(s: string, n: nat)
    requires n <= |s|
    ensures NoBareMention(s) ==> NoBareMention(s[n..])
  {
    assert forall i :: 0 <= i < |s| - n ==> s[n..][i] == s[n + i];
  }

  /** Two texts without a bare mention join into one, unless an `@`
      ending the first meets a word character opening the second. */
  lemma NoBareMentionConcat(a: string, b: string)
    ensures (NoBareMention(a) && NoBareMention(b) && (|a| > 0 && a[|a| - 1] == '@' && |b| > 0 ==> !IsWordChar(b[0])))
            ==> NoBareMention(a + b)
  {
    var r := a + b;
    assert forall i :: 0 <= i < |a| ==> r[i] == a[i];
    assert forall i :: |a| <= i < |r| ==> r[i] == b[i - |a|];
  }

  const MaxSanitizedLength: nat := 1000

  /** Plain text: nothing any pass would touch. */
  predicate Plain(s: string) {
    NoMarkdown(s) && '@' !in s && '<' !in s
  }

  /** Passes 2 and 3. They only put zero-width spaces after `@`s, so they
      keep the escapes of pass 1 and create no tag. */
  function MentionPasses(s: string): (r: string)
    ensures NoBareMention(r)
    ensures '@' !in s ==> r == s
    ensures '<' !in s ==> '<' !in r
    ensures WellEscaped(s) ==> WellEscaped(r)
    ensures NoTags(s) ==> NoTags(r)
  {
    MassMentionPassIsRedundant(s);
    BreakWordMentionsKeepsEscapes(s);
    TagPassSettings();
    TagPassShapes();
    BreakWordMentionsLeavesNoTag(s, ChannelTags);
    BreakWordMentionsLeavesNoTag(s, RoleTags);
    BreakWordMentionsLeavesNoTag(s, UserTags);
    var b := BreakMassMentions(s);
    BreakWordMentions(b)
  }

  const ChannelTags: seq<string> := ["<#"]
  const RoleTags: seq<string> := ["<@&"]
  const UserTags: seq<string> := ["<@!", "<@"]

  /** Every prefix of a tag pattern opens with `<`. */
  predicate OpensWithAngle(prefixes: seq<string>) {
    forall k :: 0 <= k < |prefixes| ==> |prefixes[k]| > 0 && prefixes[k][0] == '<'
  }

  /** Passes 4 to 6: channel, role and user tags become placeholders, so
      none is left, and the escapes of pass 1 are kept. */
  function TagPasses(s: string): (r: string)
    ensures NoBareMention(s) ==> NoBareMention(r)
    ensures '<' !in s ==> r == s
    ensures NoTags(r)
    ensures WellEscaped(s) ==> WellEscaped(r)
  {
    TagPassSettings();
    TagPassShapes();
    var s4 := ReplaceTags(s, ChannelTags, "[channel]");
    var s5 := ReplaceTags(s4, RoleTags, "[role]");
    ReplaceTagsLeavesNoTag(s, ChannelTags, "[channel]", ChannelTags);
    ReplaceTagsLeavesNoTag(s4, RoleTags, "[role]", ChannelTags);
    ReplaceTagsLeavesNoTag(s4, RoleTags, "[role]", RoleTags);
    ReplaceTagsLeavesNoTag(s5, UserTags, "[user]", ChannelTags);
    ReplaceTagsLeavesNoTag(s5, UserTags, "[user]", RoleTags);
    ReplaceTagsLeavesNoTag(s5, UserTags, "[user]", UserTags);
    ReplaceTagsKeepsEscapes(s, ChannelTags, "[channel]");
    ReplaceTagsKeepsEscapes(s4, RoleTags, "[role]");
    ReplaceTagsKeepsEscapes(s5, UserTags, "[user]");
    ReplaceTags(s5, UserTags, "[user]")
  }

  /** A prefix keeps `NoBareMention`. */
  lemma NoBareMentionPrefix(s: string, n: nat)
    requires NoBareMention(s) && n <= |s|
    ensures NoBareMention(s[..n])
  {
    assert forall i :: 0 <= i < n ==> s[..n][i] == s[i];
  }

  /** `sanitizeForDiscord`: empty text is returned as is; otherwise the six
      replacement passes run in order and the result is cut to 1000
      characters. */
  function Sanitize(text: string): (r: string)
    ensures |r| <= MaxSanitizedLength
    ensures text == "" ==> r == ""
    ensures Plain(text) && |text| <= MaxSanitizedLength ==> r == text
    ensures NoBareMention(r)
    ensures NoTags(r)
    ensures WellEscaped(r) || (|r| == MaxSanitizedLength && r[|r| - 1] == '\\' && WellEscaped(r[..|r| - 1]))
  {
    if text == "" then text
    else CutToLimit(TagPasses(MentionPasses(EscapeMarkdown(text))))
  }

  /** The cut to the first 1000 characters. It keeps what the passes
      established, except that it may split the last escape pair. */
  function CutToLimit(s: string): (r: string)
    ensures |r| <= MaxSanitizedLength && |r| <= |s| && r == s[..|r|]
    ensures |s| <= MaxSanitizedLength ==> r == s
    ensures |s| > MaxSanitizedLength ==> |r| == MaxSanitizedLength
    ensures NoBareMention(s) ==> NoBareMention(r)
    ensures NoTags(s) ==> NoTags(r)
    ensures WellEscaped(s) ==>
      WellEscaped(r) || (|r| == MaxSanitizedLength && r[|r| - 1] == '\\' && WellEscaped(r[..|r| - 1]))
  {
    if |s| <= MaxSanitizedLength then s
    else
      CutKeepsShape(s, MaxSanitizedLength);
      s[..MaxSanitizedLength]
  }

  /** A cut keeps what the passes established, except that it may split
      the last escape pair. */
  lemma CutKeepsShape(s: string, n: nat)
    requires 0 < n <= |s|
    ensures NoBareMention(s) ==> NoBareMention(s[..n])
    ensures NoTags(s) ==> NoTags(s[..n])
    ensures WellEscaped(s) ==> WellEscaped(s[..n]) || (s[..n][n - 1] == '\\' && WellEscaped(s[..n][..n - 1]))
  {
    if NoBareMention(s) {
      NoBareMentionPrefix(s, n);
    }
    if NoTags(s) {
      TagFreePrefix(s, ChannelTags, n);
      TagFreePrefix(s, RoleTags, n);
      TagFreePrefix(s, UserTags, n);
    }
    if WellEscaped(s) {
      WellEscapedCut(s, n);
    }
  }

  lemma WellEscapedCut(s: string, n: nat)
    requires WellEscaped(s) && 0 < n <= |s|
    ensures WellEscaped(s[..n]) || (s[..n][n - 1] == '\\' && WellEscaped(s[..n][..n - 1]))
  {
    WellEscapedPrefix(s, n);
    assert s[..n][..n - 1] == s[..n - 1];
  }

  // ---------------------------------------------------------------------
  // What the passes leave behind: the escapes, and no tag
  // ---------------------------------------------------------------------

  /** No tag of `prefixes` opens anywhere in `r`. */
  predicate TagFree(r: string, prefixes: seq<string>) {
    forall i :: 0 <= i < |r| ==> FirstTag(r[i..], prefixes) == 0
  }

  /** No channel, role or user tag is left anywhere in `r`. */
  predicate NoTags(r: string) {
    TagFree(r, ChannelTags) && TagFree(r, RoleTags) && TagFree(r, UserTags)
  }

  /** `c` can stand after the `<` of a tag of `prefix`: as a later
      character of the prefix, a digit or the closing `>`. */
  predicate TagInner(c: char, prefix: string) {
    c == '>' || IsDigit(c) || (|prefix| > 0 && c in prefix[1..])
  }

  /** `c` can stand after the `<` of no tag of `prefixes`. */
  predicate BreaksTags(c: char, prefixes: seq<string>) {
    forall k :: 0 <= k < |prefixes| ==> !TagInner(c, prefixes[k])
  }

  /** No prefix of `prefixes` holds a markdown character. */
  predicate PlainPrefixes(prefixes: seq<string>) {
    forall k :: 0 <= k < |prefixes| ==> NoMarkdown(prefixes[k])
  }

  /** The tag patterns and placeholders of passes 4 to 6 hold no markdown,
      and neither a placeholder's `[` nor the zero-width space of the
      mention passes can stand inside a tag. */
  lemma TagPassShapes()
    ensures PlainPrefixes(ChannelTags) && PlainPrefixes(RoleTags) && PlainPrefixes(UserTags)
    ensures NoMarkdown("[channel]") && NoMarkdown("[role]") && NoMarkdown("[user]")
    ensures BreaksTags('[', ChannelTags) && BreaksTags('[', RoleTags) && BreaksTags('[', UserTags)
    ensures BreaksTags(ZeroWidthSpace, ChannelTags) && BreaksTags(ZeroWidthSpace, RoleTags)
    ensures BreaksTags(ZeroWidthSpace, UserTags)
    ensures "[channel]"[0] == '[' && "[role]"[0] == '[' && "[user]"[0] == '['
  {
  }

  /** A tag of `p` spells `p`, then digits and `>`; so every character
      after its `<` can stand inside such a tag. */
  lemma TagChars(x: string, p: string)
    requires TagLength(x, p) > 0
    ensures forall j :: 0 <= j < |p| ==> x[j] == p[j]
    ensures forall j :: |p| <= j < TagLength(x, p) ==> x[j] == '>' || IsDigit(x[j])
    ensures forall j :: 1 <= j < TagLength(x, p) ==> TagInner(x[j], p)
  {
    var m := TagLength(x, p);
    var d := DigitRun(x[|p|..], 10);
    assert x[..|p|] == p;
    forall j | 0 <= j < |p|
      ensures x[j] == p[j]
    {
      assert x[j] == x[..|p|][j];
    }
    forall j | |p| <= j < m
      ensures x[j] == '>' || IsDigit(x[j])
    {
      if j < |p| + d {
        assert x[j] == x[|p|..][j - |p|];
      }
    }
    forall j | 1 <= j < m
      ensures TagInner(x[j], p)
    {
      if j < |p| {
        assert p[j] == p[1..][j - 1];
      }
    }
  }

  /** A tag of a markdown-free prefix holds no markdown. */
  lemma TagIsPlain(x: string, p: string)
    requires TagLength(x, p) > 0 && NoMarkdown(p)
    ensures forall j :: 0 <= j < TagLength(x, p) ==> !IsMarkdown(x[j])
  {
    TagChars(x, p);
  }

  /** The digit run ends where it ends in any string that agrees with this
      one up to and including its end. */
  lemma {:induction false} DigitRunLocal(a: string, b: string)
    requires DigitRun(a, 10) < |a| && DigitRun(a, 10) < |b|
    requires b[..DigitRun(a, 10) + 1] == a[..DigitRun(a, 10) + 1]
    ensures DigitRun(b, 10) == DigitRun(a, 10)
    decreases |a|
  {
    var d := DigitRun(a, 10);
    assert b[0] == b[..d + 1][0] == a[..d + 1][0] == a[0];
    if d > 0 {
      assert b[1..][..d] == b[..d + 1][1..] == a[..d + 1][1..] == a[1..][..d];
      DigitRunLocal(a[1..], b[1..]);
    }
  }

  /** A tag depends on its own characters only. */
  lemma TagLengthLocal(x: string, y: string, p: string)
    requires TagLength(x, p) > 0 && TagLength(x, p) <= |y|
    requires y[..TagLength(x, p)] == x[..TagLength(x, p)]
    ensures TagLength(y, p) == TagLength(x, p)
  {
    var m := TagLength(x, p);
    var d := DigitRun(x[|p|..], 10);
    assert y[..|p|] == y[..m][..|p|] == x[..m][..|p|] == x[..|p|];
    assert y[|p|..][..d + 1] == y[..m][|p|..] == x[..m][|p|..] == x[|p|..][..d + 1];
    DigitRunLocal(x[|p|..], y[|p|..]);
    assert y[|p| + d] == y[..m][|p| + d];
  }

  /** The prefix whose tag `FirstTag` measured. */
  lemma {:induction false} FirstTagWitness(x: string, prefixes: seq<string>) returns (k: nat)
    requires FirstTag(x, prefixes) > 0
    ensures k < |prefixes| && TagLength(x, prefixes[k]) == FirstTag(x, prefixes)
    decreases |prefixes|
  {
    if TagLength(x, prefixes[0]) > 0 {
      k := 0;
    } else {
      var k' := FirstTagWitness(x, prefixes[1..]);
      k := k' + 1;
    }
  }

  /** A tag of any one of `prefixes` is seen by `FirstTag`. */
  lemma {:induction false} FirstTagSees(x: string, prefixes: seq<string>, k: nat)
    requires k < |prefixes| && TagLength(x, prefixes[k]) > 0
    ensures FirstTag(x, prefixes) > 0
    decreases |prefixes|
  {
    if k > 0 && TagLength(x, prefixes[0]) == 0 {
      assert prefixes[1..][k - 1] == prefixes[k];
      FirstTagSees(x, prefixes[1..], k - 1);
    }
  }

  /** A tag at the head of `y` is one at the head of any `x` that agrees
      with `y` along it. */
  lemma TagLifts(x: string, y: string, prefixes: seq<string>)
    requires FirstTag(y, prefixes) > 0 && FirstTag(y, prefixes) <= |x|
    requires x[..FirstTag(y, prefixes)] == y[..FirstTag(y, prefixes)]
    ensures FirstTag(x, prefixes) > 0
  {
    var k := FirstTagWitness(y, prefixes);
    TagLengthLocal(y, x, prefixes[k]);
    FirstTagSees(x, prefixes, k);
  }

  /** No character after the `<` of a tag is one that breaks tags. */
  lemma TagAvoids(y: string, prefixes: seq<string>, stop: char)
    requires FirstTag(y, prefixes) > 0 && BreaksTags(stop, prefixes)
    ensures forall j :: 1 <= j < FirstTag(y, prefixes) ==> y[j] != stop
  {
    var k := FirstTagWitness(y, prefixes);
    TagChars(y, prefixes[k]);
  }

  lemma TagFreeSuffix(s: string, prefixes: seq<string>, n: nat)
    requires TagFree(s, prefixes) && n <= |s|
    ensures TagFree(s[n..], prefixes)
  {
    forall i | 0 <= i < |s| - n
      ensures FirstTag(s[n..][i..], prefixes) == 0
    {
      assert s[n..][i..] == s[n + i..];
    }
  }

  /** Cutting a text keeps it free of tags: a tag in the part kept would be
      one in the whole. */
  lemma TagFreePrefix(s: string, prefixes: seq<string>, n: nat)
    requires TagFree(s, prefixes) && n <= |s|
    ensures TagFree(s[..n], prefixes)
  {
    forall i | 0 <= i < n
      ensures FirstTag(s[..n][i..], prefixes) == 0
    {
      var y := s[..n][i..];
      if FirstTag(y, prefixes) > 0 {
        var m := FirstTag(y, prefixes);
        assert s[i..][..m] == y[..m];
        TagLifts(s[i..], y, prefixes);
      }
    }
  }

  /** Passes 4 to 6 copy their input up to the first character of a
      placeholder. */
  lemma {:induction false} ReplaceTagsCopies(s: string, prefixes: seq<string>, repl: string, k: nat)
    requires SafeReplacement(repl)
    requires k <= |ReplaceTags(s, prefixes, repl)|
    requires forall j :: 0 <= j < k ==> ReplaceTags(s, prefixes, repl)[j] != repl[0]
    ensures k <= |s| && ReplaceTags(s, prefixes, repl)[..k] == s[..k]
    decreases k
  {
    if k > 0 {
      var r := ReplaceTags(s, prefixes, repl);
      var rest := ReplaceTags(s[1..], prefixes, repl);
      assert FirstTag(s, prefixes) == 0;
      assert r == [s[0]] + rest;
      assert r[1..] == rest;
      TailAvoidsFrom(r, repl[0], k);
      ReplaceTagsCopies(s[1..], prefixes, repl, k - 1);
      AgreeAfterHead(r, s, k);
    }
  }

  /** Where a tag pass copies the head of its input, no tag of `others`
      opens there unless one opened in the input. */
  lemma CopiedHeadIsNoTag(s: string, prefixes: seq<string>, repl: string, others: seq<string>)
    requires SafeReplacement(repl) && BreaksTags(repl[0], others)
    requires |s| > 0 && FirstTag(s, prefixes) == 0 && FirstTag(s, others) == 0
    ensures FirstTag(ReplaceTags(s, prefixes, repl), others) == 0
  {
    var r := ReplaceTags(s, prefixes, repl);
    var m := FirstTag(r, others);
    if m > 0 {
      TagAvoids(r, others, repl[0]);
      ReplaceTagsCopiesAfterHead(s, prefixes, repl, m);
      TagLifts(s, r, others);
    }
  }

  /** Where a tag pass copies the head of its input, it goes on copying up
      to the first character of a placeholder after the head. */
  lemma ReplaceTagsCopiesAfterHead(s: string, prefixes: seq<string>, repl: string, m: nat)
    requires SafeReplacement(repl) && |s| > 0 && FirstTag(s, prefixes) == 0
    requires 0 < m <= |ReplaceTags(s, prefixes, repl)|
    requires forall j :: 1 <= j < m ==> ReplaceTags(s, prefixes, repl)[j] != repl[0]
    ensures m <= |s| && ReplaceTags(s, prefixes, repl)[..m] == s[..m]
  {
    var r := ReplaceTags(s, prefixes, repl);
    var rest := ReplaceTags(s[1..], prefixes, repl);
    assert r == [s[0]] + rest;
    assert r[0] == s[0] && r[1..] == rest;
    TailAvoids(r, repl[0], m);
    ReplaceTagsCopies(s[1..], prefixes, repl, m - 1);
    assert rest[..m - 1] == s[1..][..m - 1];
    AgreeAfterHead(r, s, m);
  }

  lemma TailAvoids<T>(r: seq<T>, stop: T, m: nat)
    requires m <= |r| && forall j :: 1 <= j < m ==> r[j] != stop
    ensures forall j :: 0 <= j < m - 1 ==> r[1..][j] != stop
  {
    assert forall j :: 0 <= j < m - 1 ==> r[1..][j] == r[j + 1];
  }

  lemma TailAvoidsFrom<T>(r: seq<T>, stop: T, m: nat)
    requires m <= |r| && forall j :: 0 <= j < m ==> r[j] != stop
    ensures forall j :: 0 <= j < m - 1 ==> r[1..][j] != stop
  {
    assert forall j :: 0 <= j < m - 1 ==> r[1..][j] == r[j + 1];
  }

  lemma TailAvoidsAfter<T>(r: seq<T>, stop: T, m: nat)
    requires m <= |r| && forall j :: 1 <= j < m ==> r[j] != stop
    ensures forall j :: 1 <= j < m - 1 ==> r[1..][j] != stop
  {
    assert forall j :: 1 <= j < m - 1 ==> r[1..][j] == r[j + 1];
  }

  lemma AgreeAfterHead<T>(r: seq<T>, s: seq<T>, m: nat)
    requires 0 < m <= |r| && m <= |s| && r[0] == s[0] && r[1..][..m - 1] == s[1..][..m - 1]
    ensures r[..m] == s[..m]
  {
    assert r[..m] == [r[0]] + r[1..][..m - 1];
    assert s[..m] == [s[0]] + s[1..][..m - 1];
  }

  /** A tag pass leaves no tag of its own prefixes, and none of other
      prefixes where its input had none: a tag in the output would have to
      reach into a placeholder, and no tag can hold a placeholder's first
      character. */
  lemma {:induction false} ReplaceTagsLeavesNoTag(s: string, prefixes: seq<string>, repl: string, others: seq<string>)
    requires SafeReplacement(repl) && OpensWithAngle(others) && BreaksTags(repl[0], others)
    requires others == prefixes || TagFree(s, others)
    ensures TagFree(ReplaceTags(s, prefixes, repl), others)
    decreases |s|
  {
    var r := ReplaceTags(s, prefixes, repl);
    if |s| > 0 {
      var n := FirstTag(s, prefixes);
      if n > 0 {
        var rest := ReplaceTags(s[n..], prefixes, repl);
        if others != prefixes {
          TagFreeSuffix(s, others, n);
        }
        ReplaceTagsLeavesNoTag(s[n..], prefixes, repl, others);
        assert r == repl + rest;
        forall i | 0 <= i < |r|
          ensures FirstTag(r[i..], others) == 0
        {
          if i < |repl| {
            assert r[i..][0] == repl[i] && repl[i] in repl;
          } else {
            assert r[i..] == rest[i - |repl|..];
          }
        }
      } else {
        var rest := ReplaceTags(s[1..], prefixes, repl);
        if others != prefixes {
          TagFreeSuffix(s, others, 1);
          assert s[0..] == s;
        }
        ReplaceTagsLeavesNoTag(s[1..], prefixes, repl, others);
        assert r == [s[0]] + rest;
        forall i | 0 <= i < |r|
          ensures FirstTag(r[i..], others) == 0
        {
          if i > 0 {
            assert r[i..] == rest[i - 1..];
          } else {
            CopiedHeadIsNoTag(s, prefixes, repl, others);
          }
        }
      }
    }
  }

  /** Pass 3 copies its input up to the first zero-width space it puts in;
      it never puts one at the head. */
  lemma {:induction false} BreakWordMentionsCopies(s: string, k: nat)
    requires k <= |BreakWordMentions(s)|
    ensures (forall j :: 1 <= j < k ==> BreakWordMentions(s)[j] != ZeroWidthSpace) ==>
      k <= |s| && BreakWordMentions(s)[..k] == s[..k]
    decreases k
  {
    var r := BreakWordMentions(s);
    if k == 1 {
      assert r[..1] == [r[0]] && s[..1] == [s[0]];
    } else if k > 1 {
      var rest := BreakWordMentions(s[1..]);
      if s[0] == '@' && |s| > 1 && IsWordChar(s[1]) {
        assert r == ['@', ZeroWidthSpace] + rest;
        assert r[1] == ZeroWidthSpace;
      } else if forall j :: 1 <= j < k ==> r[j] != ZeroWidthSpace {
        assert r == [s[0]] + rest;
        assert r[0] == s[0] && r[1..] == rest;
        TailAvoidsAfter(r, ZeroWidthSpace, k);
        BreakWordMentionsCopies(s[1..], k - 1);
        assert rest[..k - 1] == s[1..][..k - 1];
        AgreeAfterHead(r, s, k);
      }
    }
  }

  /** Where pass 3 copies the head of its input, no tag opens there unless
      one opened in the input. */
  lemma CopiedMentionHeadIsNoTag(s: string, prefixes: seq<string>)
    requires BreaksTags(ZeroWidthSpace, prefixes)
    requires |s| > 0 && !(s[0] == '@' && |s| > 1 && IsWordChar(s[1])) && FirstTag(s, prefixes) == 0
    ensures FirstTag(BreakWordMentions(s), prefixes) == 0
  {
    var r := BreakWordMentions(s);
    var m := FirstTag(r, prefixes);
    if m > 0 {
      TagAvoids(r, prefixes, ZeroWidthSpace);
      BreakWordMentionsCopies(s, m);
      TagLifts(s, r, prefixes);
    }
  }


  /** Pass 3 creates no tag: the zero-width space it puts in cannot stand
      inside one. */
  lemma {:induction false} BreakWordMentionsLeavesNoTag(s: string, prefixes: seq<string>)
    requires OpensWithAngle(prefixes) && BreaksTags(ZeroWidthSpace, prefixes)
    ensures TagFree(s, prefixes) ==> TagFree(BreakWordMentions(s), prefixes)
    decreases |s|
  {
    if |s| > 0 && TagFree(s, prefixes) {
      var r := BreakWordMentions(s);
      var rest := BreakWordMentions(s[1..]);
      TagFreeSuffix(s, prefixes, 1);
      BreakWordMentionsLeavesNoTag(s[1..], prefixes);
      if s[0] == '@' && |s| > 1 && IsWordChar(s[1]) {
        assert r == ['@', ZeroWidthSpace] + rest;
        forall i | 0 <= i < |r|
          ensures FirstTag(r[i..], prefixes) == 0
        {
          if i >= 2 {
            assert r[i..] == rest[i - 2..];
          } else {
            assert r[i..][0] == r[i];
          }
        }
      } else {
        assert r == [s[0]] + rest;
        assert s[0..] == s;
        forall i | 0 <= i < |r|
          ensures FirstTag(r[i..], prefixes) == 0
        {
          if i > 0 {
            assert r[i..] == rest[i - 1..];
          } else {
            CopiedMentionHeadIsNoTag(s, prefixes);
          }
        }
      }
    }
  }

  lemma WellEscapedCons(c: char, s: string)
    requires !IsMarkdown(c) && WellEscaped(s)
    ensures WellEscaped([c] + s)
  {
    assert ([c] + s)[1..] == s;
  }

  lemma WellEscapedPair(c: char, s: string)
    requires IsMarkdown(c) && WellEscaped(s)
    ensures WellEscaped(['\\', c] + s)
  {
    assert (['\\', c] + s)[2..] == s;
  }

  /** Escaped texts join into an escaped text. */
  lemma {:induction false} WellEscapedConcat(a: string, b: string)
    requires WellEscaped(a) && WellEscaped(b)
    ensures WellEscaped(a + b)
    decreases |a|
  {
    if |a| == 0 {
      assert a + b == b;
    } else if a[0] == '\\' {
      WellEscapedConcat(a[2..], b);
      assert a + b == ['\\', a[1]] + (a[2..] + b);
      WellEscapedPair(a[1], a[2..] + b);
    } else {
      WellEscapedConcat(a[1..], b);
      assert a + b == [a[0]] + (a[1..] + b);
      WellEscapedCons(a[0], a[1..] + b);
    }
  }

  lemma {:induction false} NoMarkdownIsWellEscaped(s: string)
    requires NoMarkdown(s)
    ensures WellEscaped(s)
    decreases |s|
  {
    if |s| > 0 {
      assert forall i :: 0 <= i < |s| - 1 ==> s[1..][i] == s[i + 1];
      NoMarkdownIsWellEscaped(s[1..]);
    }
  }

  /** Dropping markdown-free characters from the front of an escaped text
      leaves an escaped text. */
  lemma {:induction false} WellEscapedDrop(s: string, n: nat)
    requires WellEscaped(s) && n <= |s|
    requires forall j :: 0 <= j < n ==> !IsMarkdown(s[j])
    ensures WellEscaped(s[n..])
    decreases n
  {
    if n > 0 {
      assert forall j :: 0 <= j < n - 1 ==> s[1..][j] == s[j + 1];
      WellEscapedDrop(s[1..], n - 1);
      assert s[1..][n - 1..] == s[n..];
    }
  }

  /** A cut keeps the escapes, except that it may split the last escape
      pair and leave its backslash alone at the end. */
  lemma {:induction false} WellEscapedPrefix(s: string, n: nat)
    requires WellEscaped(s) && n <= |s|
    ensures WellEscaped(s[..n]) || (n > 0 && s[n - 1] == '\\' && WellEscaped(s[..n - 1]))
    decreases n
  {
    if n == 1 {
      assert s[..0] == "";
      if s[0] != '\\' {
        assert s[..1][1..] == "";
      }
    } else if n > 1 {
      if s[0] == '\\' {
        WellEscapedPrefix(s[2..], n - 2);
        assert s[..n][2..] == s[2..][..n - 2];
        if n > 2 {
          assert s[..n - 1][2..] == s[2..][..n - 3];
          assert s[2..][n - 3] == s[n - 1];
        }
      } else {
        WellEscapedPrefix(s[1..], n - 1);
        assert s[..n][1..] == s[1..][..n - 1];
        assert s[..n - 1][1..] == s[1..][..n - 2];
        assert s[1..][n - 2] == s[n - 1];
      }
    }
  }

  /** Pass 3 keeps the escapes: it inserts only after an `@`, and neither
      `@` nor the zero-width space is markdown. */
  lemma {:induction false} BreakWordMentionsKeepsEscapes(s: string)
    ensures WellEscaped(s) ==> WellEscaped(BreakWordMentions(s))
    decreases |s|
  {
    if |s| > 0 && WellEscaped(s) {
      if s[0] == '\\' {
        var t := s[1..];
        BreakWordMentionsKeepsEscapes(s[2..]);
        assert t == [s[1]] + s[2..];
        BreakWordMentionsCons(s[1], s[2..]);
        assert s == [s[0]] + t;
        BreakWordMentionsCons(s[0], t);
        var w := BreakWordMentions(s[2..]);
        WellEscapedPair(s[1], w);
        ConsTwice('\\', s[1], w);
      } else {
        var rest := BreakWordMentions(s[1..]);
        BreakWordMentionsKeepsEscapes(s[1..]);
        if s[0] == '@' && |s| > 1 && IsWordChar(s[1]) {
          WellEscapedCons(ZeroWidthSpace, rest);
          WellEscapedCons('@', [ZeroWidthSpace] + rest);
          ConsTwice('@', ZeroWidthSpace, rest);
        } else {
          WellEscapedCons(s[0], rest);
        }
      }
    }
  }

  /** A tag pass keeps the escapes: a tag holds no markdown, so it covers
      whole tokens, and a markdown-free placeholder is escaped. */
  lemma {:induction false} ReplaceTagsKeepsEscapes(s: string, prefixes: seq<string>, repl: string)
    requires SafeReplacement(repl) && NoMarkdown(repl)
    requires OpensWithAngle(prefixes) && PlainPrefixes(prefixes)
    ensures WellEscaped(s) ==> WellEscaped(ReplaceTags(s, prefixes, repl))
    decreases |s|
  {
    if |s| > 0 && WellEscaped(s) {
      var n := FirstTag(s, prefixes);
      if n > 0 {
        var k := FirstTagWitness(s, prefixes);
        TagIsPlain(s, prefixes[k]);
        WellEscapedDrop(s, n);
        ReplaceTagsKeepsEscapes(s[n..], prefixes, repl);
        NoMarkdownIsWellEscaped(repl);
        WellEscapedConcat(repl, ReplaceTags(s[n..], prefixes, repl));
      } else if s[0] == '\\' {
        var t := s[1..];
        assert t[0] == s[1] && FirstTag(t, prefixes) == 0;
        assert t[1..] == s[2..];
        ReplaceTagsKeepsEscapes(s[2..], prefixes, repl);
        var w := ReplaceTags(s[2..], prefixes, repl);
        assert ReplaceTags(t, prefixes, repl) == [s[1]] + w;
        WellEscapedPair(s[1], w);
        ConsTwice('\\', s[1], w);
      } else {
        ReplaceTagsKeepsEscapes(s[1..], prefixes, repl);
        WellEscapedCons(s[0], ReplaceTags(s[1..], prefixes, repl));
      }
    }
  }

  // ---------------------------------------------------------------------
  // The user-tag pass as written, and with the passes reordered
  // ---------------------------------------------------------------------

  /** A pass that finds no tag at the head of `s` and no `<` after it
      leaves `s` as it is. */
  lemma NoTagAtHead(s: string, prefixes: seq<string>, repl: string)
    requires SafeReplacement(repl) && OpensWithAngle(prefixes)
    requires |s| > 0 && FirstTag(s, prefixes) == 0 && '<' !in s[1..]
    ensures ReplaceTags(s, prefixes, repl) == s
  {
    assert [s[0]] + s[1..] == s;
  }

  /** `<@1>` after the word-mention pass: the zero-width space now sits
      between `@` and the digits. */
  const BrokenUserTag: string := "<@\U{200B}1>"

  lemma UserTagIsBrokenFirst()
    ensures MentionPasses(EscapeMarkdown("<@1>")) == BrokenUserTag
  {
    var s := "<@1>";
    assert NoMarkdown(s);
    assert !MassMentionAt(s[1..]);
    assert BreakMassMentions(s) == s;
    var t := "@1>";
    assert BreakWordMentions(t) == ['@', ZeroWidthSpace] + "1>" by {
      assert t[1..] == "1>" && IsWordChar(t[1]) && '@' !in "1>";
    }
    assert s == ['<'] + t;
    BreakWordMentionsCons('<', t);
    BrokenUserTagSpelled();
  }

  lemma BrokenUserTagSpelled()
    ensures ['<'] + (['@', ZeroWidthSpace] + "1>") == BrokenUserTag
  {
    var b := ['<'] + (['@', ZeroWidthSpace] + "1>");
    assert |b| == 5 && b[0] == '<' && b[1] == '@' && b[2] == ZeroWidthSpace && b[3] == '1' && b[4] == '>';
  }

  /** No tag pattern matches at the head of the broken tag. */
  lemma NoTagInBrokenUserTag()
    ensures FirstTag(BrokenUserTag, ChannelTags) == 0
    ensures FirstTag(BrokenUserTag, RoleTags) == 0
    ensures FirstTag(BrokenUserTag, UserTags) == 0
  {
    var b := BrokenUserTag;
    assert !StartsWith(b, "<#") by { assert b[..2][1] != "<#"[1]; }
    assert !StartsWith(b, "<@&") by { assert b[..3][2] != "<@&"[2]; }
    assert !StartsWith(b, "<@!") by { assert b[..3][2] != "<@!"[2]; }
    assert DigitRun(b[2..], 10) == 0 by { assert RadixDigit(b[2..][0], 10) < 0; }
    assert FirstTag(b, UserTags[1..]) == 0;
  }

  lemma BrokenUserTagIsNoTag()
    ensures TagPasses(BrokenUserTag) == BrokenUserTag
  {
    var b := BrokenUserTag;
    NoTagInBrokenUserTag();
    BrokenUserTagOpensOnce();
    TagPassSettings();
    assert ReplaceTags(b, ChannelTags, "[channel]") == b by {
      NoTagAtHead(b, ChannelTags, "[channel]");
    }
    assert ReplaceTags(b, RoleTags, "[role]") == b by {
      NoTagAtHead(b, RoleTags, "[role]");
    }
    assert ReplaceTags(b, UserTags, "[user]") == b by {
      NoTagAtHead(b, UserTags, "[user]");
    }
  }

  /** The broken tag has its `<` only at the head. */
  lemma BrokenUserTagOpensOnce()
    ensures |BrokenUserTag| > 0 && '<' !in BrokenUserTag[1..]
  {
  }

  /** The placeholders of passes 4 to 6 are safe, and their prefixes
      open with `<`. */
  lemma TagPassSettings()
    ensures SafeReplacement("[channel]") && SafeReplacement("[role]") && SafeReplacement("[user]")
    ensures OpensWithAngle(ChannelTags) && OpensWithAngle(RoleTags) && OpensWithAngle(UserTags)
  {
  }

  /** As written, a plain user tag never reaches the user-tag pass intact:
      `<@1>` comes out as `<@`, a zero-width space, `1>`, not `[user]`. */
  lemma UserTagSurvivesAsWritten()
    ensures Sanitize("<@1>") == BrokenUserTag
    ensures Sanitize("<@1>") != "[user]"
  {
    UserTagIsBrokenFirst();
    BrokenUserTagIsNoTag();
  }

  /** The sanitiser with the tag passes run before the mention passes, so
      that every tag the comments name is replaced by its placeholder. */
  function SanitizeTagsFirst(text: string): (r: string)
    ensures |r| <= MaxSanitizedLength
    ensures text == "" ==> r == ""
    ensures Plain(text) && |text| <= MaxSanitizedLength ==> r == text
    ensures NoBareMention(r)
    ensures NoTags(r)
    ensures WellEscaped(r) || (|r| == MaxSanitizedLength && r[|r| - 1] == '\\' && WellEscaped(r[..|r| - 1]))
  {
    if text == "" then text
    else CutToLimit(MentionPasses(TagPasses(EscapeMarkdown(text))))
  }

  /** The digit run of `d>` is `d`. */
  lemma DigitRunBeforeClose(d: string)
    requires AllDigits(d)
    ensures DigitRun(d + ">", 10) == |d|
  {
    var s := d + ">";
    var n := DigitRun(s, 10);
    assert RadixDigit(s[|d|], 10) < 0;
    assert forall i :: 0 <= i < |d| ==> s[i] == d[i] && RadixDigit(s[i], 10) >= 0;
  }

  /** A user tag holds no markdown and no `<` after its head. */
  lemma UserTagIsPlainInside(d: string)
    requires |d| > 0 && AllDigits(d)
    ensures NoMarkdown("<@" + d + ">") && '<' !in ("<@" + d + ">")[1..]
  {
    var s := "<@" + d + ">";
    assert s == "<@" + (d + ">");
    assert s[2..] == d + ">";
    forall i | 0 <= i < |s|
      ensures !IsMarkdown(s[i]) && (i > 0 ==> s[i] != '<')
    {
      if 2 <= i < |s| - 1 {
        assert s[i] == s[2..][i - 2] == d[i - 2];
      }
    }
  }

  /** Only the user pattern `<@` matches at the head of a user tag, and
      it covers all of it. */
  lemma UserTagMatchesUserPattern(d: string)
    requires |d| > 0 && AllDigits(d)
    ensures FirstTag("<@" + d + ">", ChannelTags) == 0 && FirstTag("<@" + d + ">", RoleTags) == 0
    ensures FirstTag("<@" + d + ">", UserTags) == |d| + 3
  {
    UserTagOpensPlainly(d);
    UserTagLength(d);
    var s := "<@" + d + ">";
    assert FirstTag(s, ChannelTags) == 0 by { assert ChannelTags[1..] == []; }
    assert FirstTag(s, RoleTags) == 0 by { assert RoleTags[1..] == []; }
    assert FirstTag(s, UserTags[1..]) == |s| by { assert UserTags[1..][0] == "<@"; }
  }

  /** A user tag opens with `<@` and a digit, so no other tag pattern
      matches its head. */
  lemma UserTagOpensPlainly(d: string)
    requires |d| > 0 && AllDigits(d)
    ensures !StartsWith("<@" + d + ">", "<#") && !StartsWith("<@" + d + ">", "<@&")
    ensures !StartsWith("<@" + d + ">", "<@!")
  {
    var s := "<@" + d + ">";
    assert s[1] == '@' && s[2] == d[0];
    assert "<#"[1] == '#' && "<@&"[2] == '&' && "<@!"[2] == '!';
  }

  /** The `<@` pattern covers the whole of a user tag. */
  lemma UserTagLength(d: string)
    requires |d| > 0 && AllDigits(d)
    ensures TagLength("<@" + d + ">", "<@") == |d| + 3
  {
    var s := "<@" + d + ">";
    assert s == "<@" + (d + ">");
    ConcatAffixes("<@", d + ">");
    assert s[2..] == d + ">";
    DigitRunBeforeClose(d);
  }

  /** With the passes reordered, every plain user tag becomes `[user]`. */
  lemma UserTagIsReplaced(d: string)
    requires |d| > 0 && AllDigits(d)
    ensures SanitizeTagsFirst("<@" + d + ">") == "[user]"
  {
    var s := "<@" + d + ">";
    TagPassSettings();
    UserTagIsPlainInside(d);
    UserTagMatchesUserPattern(d);
    assert ReplaceTags(s, ChannelTags, "[channel]") == s by {
      NoTagAtHead(s, ChannelTags, "[channel]");
    }
    assert ReplaceTags(s, RoleTags, "[role]") == s by {
      NoTagAtHead(s, RoleTags, "[role]");
    }
    assert ReplaceTags(s, UserTags, "[user]") == "[user]" by {
      assert s[|s|..] == "";
      assert "[user]" + "" == "[user]";
    }
    assert TagPasses(s) == "[user]";
    assert EscapeMarkdown(s) == s;
    assert MentionPasses("[user]") == "[user]" by {
      assert '@' !in "[user]";
    }
  }

  /** A tag `p digits >` is measured whole by its own prefix. */
  lemma TagFormLength(p: string, d: string)
    requires |d| > 0 && AllDigits(d)
    ensures TagLength(p + d + ">", p) == |p| + |d| + 1
  {
    var s := p + d + ">";
    assert s == p + (d + ">");
    ConcatAffixes(p, d + ">");
    assert s[|p|..] == d + ">";
    DigitRunBeforeClose(d);
  }

  /** A tag of a plain prefix is plain after its head. */
  lemma TagFormPlain(p: string, d: string)
    requires |d| > 0 && AllDigits(d)
    requires 1 < |p| && NoMarkdown(p) && '<' !in p[1..] && '@' !in p[2..]
    ensures NoMarkdown(p + d + ">") && '<' !in (p + d + ">")[1..] && '@' !in (p + d + ">")[2..]
  {
    var s := p + d + ">";
    forall i | 0 <= i < |s|
      ensures !IsMarkdown(s[i]) && (i > 0 ==> s[i] != '<') && (i > 1 ==> s[i] != '@')
    {
      if i < |p| {
        assert s[i] == p[i];
        if i > 0 {
          assert p[i] == p[1..][i - 1];
        }
        if i > 1 {
          assert p[i] == p[2..][i - 2];
        }
      } else if i < |p| + |d| {
        assert s[i] == d[i - |p|];
      }
    }
    assert forall i :: 0 <= i < |s| - 1 ==> s[1..][i] == s[i + 1];
    assert forall i :: 0 <= i < |s| - 2 ==> s[2..][i] == s[i + 2];
  }

  /** An `@` followed by a character that cannot start a mention, with no
      `@` after it, is left alone by the mention passes. */
  lemma MentionPassesSpare(u: string)
    requires |u| > 0 && !IsWordChar(u[0]) && '@' !in u
    ensures MentionPasses(['<', '@'] + u) == ['<', '@'] + u
  {
    var t := ['@'] + u;
    var s := ['<'] + t;
    assert s == ['<', '@'] + u;
    MassMentionPassIsRedundant(s);
    BreakWordMentionsCons('@', u);
    BreakWordMentionsCons('<', t);
  }

  /** A text with no `<` and no `@`, short enough, passes through every
      pass but the first and through the cut unchanged; the placeholders
      are such texts. */
  lemma PlaceholderStays(p: string)
    requires '<' !in p && '@' !in p && |p| <= MaxSanitizedLength
    ensures MentionPasses(p) == p && TagPasses(p) == p && CutToLimit(p) == p
  {
  }

  /** Either sanitiser turns a tag that escaping and the mention passes
      leave alone, and that the tag passes turn into a placeholder, into
      that placeholder. */
  lemma TagBecomes(s: string, repl: string)
    requires s != "" && EscapeMarkdown(s) == s && MentionPasses(s) == s && TagPasses(s) == repl
    requires '<' !in repl && '@' !in repl && |repl| <= MaxSanitizedLength
    ensures Sanitize(s) == repl && SanitizeTagsFirst(s) == repl
  {
    PlaceholderStays(repl);
  }

  lemma PlaceholderShapes()
    ensures '<' !in "[channel]" && '@' !in "[channel]" && |"[channel]"| <= MaxSanitizedLength
    ensures '<' !in "[role]" && '@' !in "[role]" && |"[role]"| <= MaxSanitizedLength
    ensures '<' !in "[user]" && '@' !in "[user]" && |"[user]"| <= MaxSanitizedLength
  {
  }

  /** A pass whose input is one whole tag gives the placeholder alone. */
  lemma WholeTagReplaced(s: string, prefixes: seq<string>, repl: string)
    requires SafeReplacement(repl) && 0 < |s| && FirstTag(s, prefixes) == |s|
    ensures ReplaceTags(s, prefixes, repl) == repl
  {
    assert s[|s|..] == [];
    assert repl + [] == repl;
  }

  /** The prefixes of the channel, role and nickname tags. */
  lemma TagPrefixShapes()
    ensures ChannelTags == ["<#"] && RoleTags == ["<@&"] && UserTags[0] == "<@!"
    ensures NoMarkdown("<#") && NoMarkdown("<@&") && NoMarkdown("<@!")
    ensures '<' !in "<#"[1..] && '<' !in "<@&"[1..] && '<' !in "<@!"[1..]
    ensures '@' !in "<#"[2..] && '@' !in "<@&"[2..] && '@' !in "<@!"[2..]
  {
  }

  lemma ChannelTagPassed(s: string)
    requires 0 < |s| && FirstTag(s, ChannelTags) == |s|
    ensures TagPasses(s) == "[channel]"
  {
    TagPassSettings();
    WholeTagReplaced(s, ChannelTags, "[channel]");
  }

  lemma RoleTagPassed(s: string)
    requires 0 < |s| && '<' !in s[1..]
    requires FirstTag(s, ChannelTags) == 0 && FirstTag(s, RoleTags) == |s|
    ensures TagPasses(s) == "[role]"
  {
    TagPassSettings();
    NoTagAtHead(s, ChannelTags, "[channel]");
    WholeTagReplaced(s, RoleTags, "[role]");
  }

  lemma NicknameTagPassed(s: string)
    requires 0 < |s| && '<' !in s[1..]
    requires FirstTag(s, ChannelTags) == 0 && FirstTag(s, RoleTags) == 0 && FirstTag(s, UserTags) == |s|
    ensures TagPasses(s) == "[user]"
  {
    TagPassSettings();
    NoTagAtHead(s, ChannelTags, "[channel]");
    NoTagAtHead(s, RoleTags, "[role]");
    WholeTagReplaced(s, UserTags, "[user]");
  }

  /** `<#digits>` is plain, holds no `@` and is one whole channel tag. */
  lemma ChannelTagForm(d: string)
    requires |d| > 0 && AllDigits(d)
    ensures EscapeMarkdown("<#" + d + ">") == "<#" + d + ">" && '@' !in "<#" + d + ">"
    ensures FirstTag("<#" + d + ">", ChannelTags) == |"<#" + d + ">"|
  {
    var s := "<#" + d + ">";
    TagPrefixShapes();
    TagFormPlain("<#", d);
    TagFormLength("<#", d);
    assert s[0] == '<' && s[1] == '#';
    assert forall i :: 2 <= i < |s| ==> s[i] == s[2..][i - 2];
  }

  /** `<@&digits>` is plain, has its `<` only at the head, is no channel
      tag and is one whole role tag. */
  lemma RoleTagForm(d: string)
    requires |d| > 0 && AllDigits(d)
    ensures var s := "<@&" + d + ">";
      EscapeMarkdown(s) == s && '<' !in s[1..] && s == ['<', '@'] + s[2..] && s[2] == '&' && '@' !in s[2..]
    ensures FirstTag("<@&" + d + ">", ChannelTags) == 0
    ensures FirstTag("<@&" + d + ">", RoleTags) == |"<@&" + d + ">"|
  {
    var s := "<@&" + d + ">";
    TagPrefixShapes();
    TagFormPlain("<@&", d);
    TagFormLength("<@&", d);
    assert s[..2][1] != "<#"[1];
  }

  /** `<@!digits>` is plain, has its `<` only at the head, is no channel
      or role tag and is one whole user tag. */
  lemma NicknameTagForm(d: string)
    requires |d| > 0 && AllDigits(d)
    ensures var s := "<@!" + d + ">";
      EscapeMarkdown(s) == s && '<' !in s[1..] && s == ['<', '@'] + s[2..] && s[2] == '!' && '@' !in s[2..]
    ensures FirstTag("<@!" + d + ">", ChannelTags) == 0 && FirstTag("<@!" + d + ">", RoleTags) == 0
    ensures FirstTag("<@!" + d + ">", UserTags) == |"<@!" + d + ">"|
  {
    var s := "<@!" + d + ">";
    TagPrefixShapes();
    TagFormPlain("<@!", d);
    TagFormLength("<@!", d);
    assert s[..2][1] != "<#"[1];
    assert s[..3][2] != "<@&"[2];
  }

  /** Every channel tag becomes `[channel]`, whichever order the passes
      run in. */
  lemma ChannelTagIsReplaced(d: string)
    requires |d| > 0 && AllDigits(d)
    ensures Sanitize("<#" + d + ">") == "[channel]"
    ensures SanitizeTagsFirst("<#" + d + ">") == "[channel]"
  {
    var s := "<#" + d + ">";
    ChannelTagForm(d);
    ChannelTagPassed(s);
    PlaceholderShapes();
    TagBecomes(s, "[channel]");
  }

  /** Every role tag becomes `[role]`, whichever order the passes run in. */
  lemma RoleTagIsReplaced(d: string)
    requires |d| > 0 && AllDigits(d)
    ensures Sanitize("<@&" + d + ">") == "[role]"
    ensures SanitizeTagsFirst("<@&" + d + ">") == "[role]"
  {
    var s := "<@&" + d + ">";
    RoleTagForm(d);
    MentionPassesSpare(s[2..]);
    RoleTagPassed(s);
    PlaceholderShapes();
    TagBecomes(s, "[role]");
  }

  /** Every nickname tag `<@!digits>` becomes `[user]`, whichever order the
      passes run in. */
  lemma NicknameTagIsReplaced(d: string)
    requires |d| > 0 && AllDigits(d)
    ensures Sanitize("<@!" + d + ">") == "[user]"
    ensures SanitizeTagsFirst("<@!" + d + ">") == "[user]"
  {
    var s := "<@!" + d + ">";
    NicknameTagForm(d);
    MentionPassesSpare(s[2..]);
    NicknameTagPassed(s);
    PlaceholderShapes();
    TagBecomes(s, "[user]");
  }

  // ---------------------------------------------------------------------
  // Embed fields
  // ---------------------------------------------------------------------

  datatype Field = Field(name: string, value: string, inline: bool)

  /** `Array.prototype.splice(start, 0, x)`: `x` goes in at `start`, read
      from the end when negative and clamped to the array. */
  function SpliceInsert<T>(a: seq<T>, start: int, x: T): seq<T> {
    var at := if start < 0 then (if |a| + start < 0 then 0 else |a| + start)
              else (if start > |a| then |a| else start);
    a[..at] + [x] + a[at..]
  }

  /** `fields.splice(-1, 0, f)`: `f` goes in just before the last field. */
  function InsertBeforeLast(fields: seq<Field>, f: Field): (r: seq<Field>)
    ensures |r| == |fields| + 1
    ensures |fields| == 0 ==> r == [f]
    ensures |fields| > 0 ==> r[|r| - 1] == fields[|fields| - 1] && r[|r| - 2] == f
    ensures |fields| > 0 ==> r[..|fields| - 1] == fields[..|fields| - 1]
  {
    if |fields| == 0 then [f] else fields[..|fields| - 1] + [f, fields[|fields| - 1]]
  }

  /** Inserting before the last field of `xs + [last]`. */
  lemma InsertBeforeLastSnoc(xs: seq<Field>, f: Field, last: Field)
    ensures InsertBeforeLast(xs + [last], f) == xs + [f] + [last]
  {
    assert (xs + [last])[..|xs|] == xs;
  }

  /** The insertion is `splice(-1, 0, f)` of JavaScript. */
  lemma InsertBeforeLastIsSplice(fields: seq<Field>, f: Field)
    ensures InsertBeforeLast(fields, f) == SpliceInsert(fields, -1, f)
  {
  }

  /** What the notifiers are told about a listing. */
  datatype ListingInfo = ListingInfo(
    id: string,
    itemName: string,
    quantity: int,
    askingPrice: int,
    acceptsItems: bool,
    listingType: Option<string>,
    notes: Option<string>)

  /** What the notifiers are told about an offer. */
  datatype OfferInfo = OfferInfo(
    coinOffer: Option<int>,
    message: Option<string>,
    buyerName: string,
    buyerDiscordId: Option<string>)

  /** `listing.listingType || 'selling'`. */
  function ListingType(l: ListingInfo): string {
    if Present(l.listingType) then l.listingType.value else "selling"
  }

  function Coins(n: int): string {
    IntToString(n) + " coins"
  }

  predicate CoinsOffered(o: OfferInfo) {
    o.coinOffer.Some? && o.coinOffer.value != 0
  }

  function Link(text: string, url: string): string {
    "[" + text + "](" + url + ")"
  }

  // Field names; the emoji prefixes are written as code points.
  const ItemLabel: string := "\U{1F4E6} Item"
  const YourItemLabel: string := "\U{1F4E6} Your Item"
  const QuantityLabel: string := "\U{1F522} Quantity"
  const AskingLabel: string := "\U{1F4B0} Asking Price"
  const OfferingLabel: string := "\U{1F4B0} Offering Price"
  const AcceptsLabel: string := "\U{1F504} Accepts Trades"
  const DirectLinkLabel: string := "\U{1F517} Direct Link"
  const MarketplaceLabel: string := "\U{1F517} Marketplace"
  const ViewListingLabel: string := "\U{1F517} View Listing"
  const NotesLabel: string := "\U{1F4DD} Notes"
  const BuyerLabel: string := "\U{1F464} Buyer"
  const CoinOfferLabel: string := "\U{1F4B0} Coin Offer"
  const YourOfferLabel: string := "\U{1F4B0} Your Offer"
  const MessageLabel: string := "\U{1F4AC} Message"

  /** The four facts every listing-created and listing-updated embed shows;
      the price is labelled as an offering price on a buying listing. */
  function ListingFacts(l: ListingInfo): seq<Field> {
    [ Field(ItemLabel, l.itemName, true),
      Field(QuantityLabel, FormatQuantity(l.quantity), true),
      Field(if ListingType(l) == "buying" then OfferingLabel else AskingLabel, Coins(l.askingPrice), true),
      Field(AcceptsLabel, if l.acceptsItems then "Yes" else "No", true)]
  }

  function NotesFields(l: ListingInfo): seq<Field> {
    if Present(l.notes) then [Field(NotesLabel, SanitizeTagsFirst(l.notes.value), false)] else []
  }

  function ListingLink(c: Config, l: ListingInfo): Field {
    Field(DirectLinkLabel, Link("View on Marketplace", MarketplaceUrl(c, Some(l.id))), false)
  }

  /** The fields of the listing-created and listing-updated embeds: the
      link field is built last and the notes are spliced in before it. */
  function ListingFields(c: Config, l: ListingInfo): (r: seq<Field>)
    ensures r == ListingFacts(l) + NotesFields(l) + [ListingLink(c, l)]
  {
    var base := ListingFacts(l) + [ListingLink(c, l)];
    var notes := Field(NotesLabel, SanitizeTagsFirst(l.notes.GetOr("")), false);
    InsertBeforeLastSnoc(ListingFacts(l), notes, ListingLink(c, l));
    if Present(l.notes) then InsertBeforeLast(base, notes) else base
  }

  /** The fields of the listing-removed embed; nothing optional. */
  function RemovedFields(c: Config, l: ListingInfo): seq<Field> {
    [ Field(ItemLabel, l.itemName, true),
      Field(QuantityLabel, FormatQuantity(l.quantity), true),
      Field(AskingLabel, Coins(l.askingPrice), true),
      Field(MarketplaceLabel, Link("Browse Other Listings", MarketplaceUrl(c, None)), false)]
  }

  function QuantityAndItem(l: ListingInfo): string {
    FormatQuantity(l.quantity) + "x " + l.itemName
  }

  /** The coin-offer field, present only for a non-zero offer. */
  function CoinFields(o: OfferInfo, name: string): seq<Field> {
    if CoinsOffered(o) then [Field(name, Coins(o.coinOffer.value), true)] else []
  }

  function MessageFields(o: OfferInfo): seq<Field> {
    if Present(o.message) then [Field(MessageLabel, SanitizeTagsFirst(o.message.value), false)] else []
  }

  function OfferLink(c: Config, l: ListingInfo, text: string): Field {
    Field(ViewListingLabel, Link(text, MarketplaceUrl(c, Some(l.id))), false)
  }

  function OfferReceivedHead(l: ListingInfo, o: OfferInfo): seq<Field> {
    [Field(YourItemLabel, QuantityAndItem(l), true), Field(BuyerLabel, SanitizeTagsFirst(o.buyerName), true)]
  }

  /** The fields of the offer-received embed: the coin offer and then the
      message are spliced in before the link, so they keep that order. */
  function OfferReceivedFields(c: Config, l: ListingInfo, o: OfferInfo): (r: seq<Field>)
    ensures r == OfferReceivedHead(l, o) + CoinFields(o, CoinOfferLabel) + MessageFields(o) + [OfferLink(c, l, "Open in Marketplace")]
  {
    var link := OfferLink(c, l, "Open in Marketplace");
    var head := OfferReceivedHead(l, o);
    var coin := Field(CoinOfferLabel, Coins(o.coinOffer.GetOr(0)), true);
    var msg := Field(MessageLabel, SanitizeTagsFirst(o.message.GetOr("")), false);
    var coins := CoinFields(o, CoinOfferLabel);
    var withCoin := if CoinsOffered(o) then InsertBeforeLast(head + [link], coin) else head + [link];
    assert withCoin == (head + coins) + [link] by {
      if CoinsOffered(o) {
        InsertBeforeLastSnoc(head, coin, link);
      } else {
        assert head + coins == head;
      }
    }
    var r := if Present(o.message) then InsertBeforeLast(withCoin, msg) else withCoin;
    assert r == head + coins + MessageFields(o) + [link] by {
      if Present(o.message) {
        InsertBeforeLastSnoc(head + coins, msg, link);
      } else {
        assert head + coins + MessageFields(o) == head + coins;
      }
    }
    r
  }

  function ResolvedLink(c: Config, l: ListingInfo, accepted: bool): Field {
    if accepted then Field(MarketplaceLabel, Link("Browse More Items", MarketplaceUrl(c, None)), false)
    else OfferLink(c, l, "Make Another Offer")
  }

  /** The fields of the offer-accepted (`accepted`) and offer-declined
      embeds: the item, the coin offer spliced in when present, the link. */
  function OfferResolvedFields(c: Config, l: ListingInfo, o: OfferInfo, accepted: bool): (r: seq<Field>)
    ensures r == [Field(ItemLabel, QuantityAndItem(l), true)] + CoinFields(o, YourOfferLabel) + [ResolvedLink(c, l, accepted)]
  {
    var link := ResolvedLink(c, l, accepted);
    var item := Field(ItemLabel, QuantityAndItem(l), true);
    var coin := Field(YourOfferLabel, Coins(o.coinOffer.GetOr(0)), true);
    InsertBeforeLastSnoc([item], coin, link);
    if CoinsOffered(o) then InsertBeforeLast([item] + [link], coin) else [item] + [link]
  }

  // ---------------------------------------------------------------------
  // Delivery
  // ---------------------------------------------------------------------

  /** One HTTP request the service makes: a direct message to a Discord
      user, or a post to the channel webhook with an optional content line. */
  datatype Delivery = DirectMessage(recipient: string) | WebhookPost(content: Option<string>)

  /** The requests a notifier makes for a user: with a bot token a direct
      message, followed, when it fails (`dmSucceeds` is false) and a
      webhook is set, by a webhook post without content; otherwise a
      webhook post carrying the mention line. Failed webhook posts are
      swallowed. */
  function Deliveries(c: Config, recipient: string, mention: string, dmSucceeds: bool): (r: seq<Delivery>)
    ensures !IsConfigured(c) ==> r == []
    ensures IsConfigured(c) ==> 1 <= |r| <= 2
    ensures Present(c.botToken) ==> r[0] == DirectMessage(recipient)
    ensures |r| == 2 <==> Present(c.botToken) && !dmSucceeds && Present(c.webhookUrl)
    ensures forall i :: 0 <= i < |r| && r[i].DirectMessage? ==> r[i].recipient == recipient
    ensures forall i :: 0 <= i < |r| && r[i].WebhookPost? ==> Present(c.webhookUrl)
    ensures forall i :: 0 <= i < |r| && r[i].WebhookPost? && r[i].content.Some? ==>
              !Present(c.botToken) && r[i].content.value == mention
    ensures !Present(c.botToken) && Present(c.webhookUrl) ==> r == [WebhookPost(Some(mention))]
    ensures |r| == 2 ==> r[1] == WebhookPost(None)
  {
    if Present(c.botToken) then
      [DirectMessage(recipient)] + (if !dmSucceeds && Present(c.webhookUrl) then [WebhookPost(None)] else [])
    else if Present(c.webhookUrl) then [WebhookPost(Some(mention))]
    else []
  }

  /** Whether the user ends up with the embed: a direct message that went
      through, or any post to the channel. */
  predicate Reached(r: seq<Delivery>, dmSucceeds: bool) {
    exists i :: 0 <= i < |r| && (r[i].WebhookPost? || dmSucceeds)
  }

  /** A configured service reaches the user unless the direct message
      fails with no webhook to fall back on, and a webhook post without the
      mention line is sent only as the fallback of a failed direct message. */
  lemma DeliveriesReachUser(c: Config, recipient: string, mention: string, dmSucceeds: bool)
    ensures var r := Deliveries(c, recipient, mention, dmSucceeds);
            Reached(r, dmSucceeds) <==> IsConfigured(c) && !(Present(c.botToken) && !dmSucceeds && !Present(c.webhookUrl))
    ensures var r := Deliveries(c, recipient, mention, dmSucceeds);
            forall i :: 0 <= i < |r| && r[i] == WebhookPost(None) ==> i == 1 && r[0] == DirectMessage(recipient) && !dmSucceeds
  {
    var r := Deliveries(c, recipient, mention, dmSucceeds);
    if IsConfigured(c) && !(Present(c.botToken) && !dmSucceeds && !Present(c.webhookUrl)) {
      assert r[|r| - 1].WebhookPost? || dmSucceeds;
    }
  }

  /** The six notifications. */
  datatype Event = ListingCreated | ListingUpdated | ListingRemoved | OfferReceived | OfferAccepted | OfferRejected

  function Mention(discordId: string): string {
    "<@" + discordId + ">"
  }

  /** The content line of the webhook fallback; it pings the notified user. */
  function MentionLine(e: Event, discordId: string, l: ListingInfo, o: OfferInfo): (r: string)
    ensures StartsWith(r, Mention(discordId) + " ")
    ensures e == OfferReceived && Present(o.buyerDiscordId) ==> EndsWith(r, Mention(o.buyerDiscordId.value) + "!")
    ensures e == OfferReceived && !Present(o.buyerDiscordId) ==> EndsWith(r, o.buyerName + "!")
  {
    var who := Mention(discordId) + " ";
    var buyer := if Present(o.buyerDiscordId) then Mention(o.buyerDiscordId.value) else o.buyerName;
    var tail := match e
      case ListingCreated => "Your marketplace " + ListingType(l) + " listing has been created!"
      case ListingUpdated => "Your marketplace " + ListingType(l) + " listing has been updated!"
      case ListingRemoved => "Your marketplace listing has been removed."
      case OfferReceived => "You have a new offer from " + buyer + "!"
      case OfferAccepted => "Great news! Your offer has been accepted!"
      case OfferRejected => "Your offer was declined, but don't give up!";
    assert (who + tail)[..|who|] == who;
    if e == OfferReceived then
      var lead := who + "You have a new offer from ";
      assert who + tail == lead + (buyer + "!");
      ConcatAffixes(lead, buyer + "!");
      who + tail
    else who + tail
  }

  /** The user a notification is about, as the notifiers receive them. */
  datatype Recipient = Recipient(discordId: string, username: string, avatar: Option<string>)

  /** An embed as far as modelled: its fields and thumbnail. */
  datatype Embed = Embed(fields: seq<Field>, thumbnail: string)

  function EmbedFor(c: Config, e: Event, u: Recipient, l: ListingInfo, o: OfferInfo): Embed {
    var fields := match e
      case ListingCreated => ListingFields(c, l)
      case ListingUpdated => ListingFields(c, l)
      case ListingRemoved => RemovedFields(c, l)
      case OfferReceived => OfferReceivedFields(c, l, o)
      case OfferAccepted => OfferResolvedFields(c, l, o, true)
      case OfferRejected => OfferResolvedFields(c, l, o, false);
    Embed(fields, Avatars.AvatarUrl(u.discordId, u.avatar))
  }

  /** A notifier: nothing at all unless configured; otherwise the embed and
      the requests that carry it. */
  function Notify(c: Config, e: Event, u: Recipient, l: ListingInfo, o: OfferInfo, dmSucceeds: bool): (r: Option<(Embed, seq<Delivery>)>)
    ensures r.None? <==> !IsConfigured(c)
    ensures r.Some? ==> |r.value.1| > 0 && r.value.0 == EmbedFor(c, e, u, l, o)
    ensures r.Some? ==> forall i :: 0 <= i < |r.value.1| && r.value.1[i].DirectMessage? ==> r.value.1[i].recipient == u.discordId
    ensures r.Some? ==> r.value.1 == Deliveries(c, u.discordId, MentionLine(e, u.discordId, l, o), dmSucceeds)
  {
    if !IsConfigured(c) then None
    else Some((EmbedFor(c, e, u, l, o), Deliveries(c, u.discordId, MentionLine(e, u.discordId, l, o), dmSucceeds)))
  }

  /** A notification reaches the user exactly when the service is
      configured and the direct message, if one is tried, either succeeds
      or has a webhook to fall back on. */
  lemma NotifyReachesUser(c: Config, e: Event, u: Recipient, l: ListingInfo, o: OfferInfo, dmSucceeds: bool)
    ensures var r := Notify(c, e, u, l, o, dmSucceeds);
            (r.Some? && Reached(r.value.1, dmSucceeds)) <==> IsConfigured(c) && !(Present(c.botToken) && !dmSucceeds && !Present(c.webhookUrl))
  {
    DeliveriesReachUser(c, u.discordId, MentionLine(e, u.discordId, l, o), dmSucceeds);
  }

  /** The names of the fields that link back to the marketplace. */
  predicate IsLinkName(name: string) {
    name == DirectLinkLabel || name == MarketplaceLabel || name == ViewListingLabel
  }

  /** At least two fields, a link last and no link before it. */
  predicate LinkLast(fields: seq<Field>) {
    |fields| >= 2 && IsLinkName(fields[|fields| - 1].name)
    && forall i :: 0 <= i < |fields| - 1 ==> !IsLinkName(fields[i].name)
  }

  /** The emoji of every other field name differs from the link emoji. */
  lemma OtherNamesAreNotLinks()
    ensures !IsLinkName(ItemLabel) && !IsLinkName(YourItemLabel) && !IsLinkName(QuantityLabel)
    ensures !IsLinkName(AskingLabel) && !IsLinkName(OfferingLabel) && !IsLinkName(AcceptsLabel)
    ensures !IsLinkName(NotesLabel) && !IsLinkName(BuyerLabel) && !IsLinkName(CoinOfferLabel)
    ensures !IsLinkName(YourOfferLabel) && !IsLinkName(MessageLabel)
  {
    assert DirectLinkLabel[0] == MarketplaceLabel[0] == ViewListingLabel[0] == '\U{1F517}';
    assert ItemLabel[0] != '\U{1F517}' && YourItemLabel[0] != '\U{1F517}' && QuantityLabel[0] != '\U{1F517}';
    assert AskingLabel[0] != '\U{1F517}' && OfferingLabel[0] != '\U{1F517}' && AcceptsLabel[0] != '\U{1F517}';
    assert NotesLabel[0] != '\U{1F517}' && BuyerLabel[0] != '\U{1F517}' && CoinOfferLabel[0] != '\U{1F517}';
    assert YourOfferLabel[0] != '\U{1F517}' && MessageLabel[0] != '\U{1F517}';
  }

  predicate NoLink(xs: seq<Field>) {
    forall i :: 0 <= i < |xs| ==> !IsLinkName(xs[i].name)
  }

  lemma NoLinkConcat(a: seq<Field>, b: seq<Field>)
    requires NoLink(a) && NoLink(b)
    ensures NoLink(a + b)
  {
    assert forall i :: |a| <= i < |a + b| ==> (a + b)[i] == b[i - |a|];
  }

  lemma NoLinkFour(a: Field, b: Field, c: Field, d: Field)
    requires !IsLinkName(a.name) && !IsLinkName(b.name) && !IsLinkName(c.name) && !IsLinkName(d.name)
    ensures NoLink([a, b, c, d])
  {
  }

  /** A list of non-link fields followed by one link field. */
  lemma LinkLastOf(xs: seq<Field>, link: Field)
    requires |xs| >= 1 && IsLinkName(link.name)
    requires NoLink(xs)
    ensures LinkLast(xs + [link])
  {
    assert forall i :: 0 <= i < |xs| ==> (xs + [link])[i] == xs[i];
  }

  /** The non-link parts of the listing embeds. */
  lemma ListingPartsHaveNoLink(c: Config, l: ListingInfo)
    ensures NoLink(ListingFacts(l)) && NoLink(NotesFields(l))
  {
    OtherNamesAreNotLinks();
    var xs := ListingFacts(l);
    NoLinkFour(xs[0], xs[1], xs[2], xs[3]);
    assert xs == [xs[0], xs[1], xs[2], xs[3]];
    var ns := NotesFields(l);
    assert forall i :: 0 <= i < |ns| ==> ns[i].name == NotesLabel;
  }

  lemma RemovedPartsHaveNoLink(c: Config, l: ListingInfo)
    ensures NoLink(RemovedFields(c, l)[..3])
  {
    OtherNamesAreNotLinks();
    var rs := RemovedFields(c, l)[..3];
    assert rs[0].name == ItemLabel && rs[1].name == QuantityLabel && rs[2].name == AskingLabel;
  }

  lemma ListingFieldsLinkLast(c: Config, l: ListingInfo)
    ensures LinkLast(ListingFields(c, l))
  {
    ListingPartsHaveNoLink(c, l);
    NoLinkConcat(ListingFacts(l), NotesFields(l));
    LinkLastOf(ListingFacts(l) + NotesFields(l), ListingLink(c, l));
  }

  lemma RemovedFieldsLinkLast(c: Config, l: ListingInfo)
    ensures LinkLast(RemovedFields(c, l))
  {
    RemovedPartsHaveNoLink(c, l);
    var rs := RemovedFields(c, l);
    LinkLastOf(rs[..3], rs[3]);
    assert rs[..3] + [rs[3]] == rs;
  }

  /** The non-link parts of the offer-received embed. */
  lemma OfferPartsHaveNoLink(l: ListingInfo, o: OfferInfo)
    ensures NoLink(OfferReceivedHead(l, o)) && NoLink(CoinFields(o, CoinOfferLabel)) && NoLink(MessageFields(o))
  {
    OfferHeadHasNoLink(l, o);
    CoinFieldsHaveNoLink(o);
    MessageFieldsHaveNoLink(o);
  }

  lemma OfferHeadHasNoLink(l: ListingInfo, o: OfferInfo)
    ensures NoLink(OfferReceivedHead(l, o))
  {
    OtherNamesAreNotLinks();
    var head := OfferReceivedHead(l, o);
    assert head[0].name == YourItemLabel && head[1].name == BuyerLabel;
  }

  lemma CoinFieldsHaveNoLink(o: OfferInfo)
    ensures NoLink(CoinFields(o, CoinOfferLabel))
  {
    OtherNamesAreNotLinks();
    var coin := CoinFields(o, CoinOfferLabel);
    assert forall i :: 0 <= i < |coin| ==> coin[i].name == CoinOfferLabel;
  }

  lemma MessageFieldsHaveNoLink(o: OfferInfo)
    ensures NoLink(MessageFields(o))
  {
    OtherNamesAreNotLinks();
    var msg := MessageFields(o);
    assert forall i :: 0 <= i < |msg| ==> msg[i].name == MessageLabel;
  }

  lemma OfferReceivedLinkLast(c: Config, l: ListingInfo, o: OfferInfo)
    ensures LinkLast(OfferReceivedFields(c, l, o))
  {
    var head := OfferReceivedHead(l, o);
    var coin := CoinFields(o, CoinOfferLabel);
    var msg := MessageFields(o);
    OfferPartsHaveNoLink(l, o);
    NoLinkConcat(head, coin);
    NoLinkConcat(head + coin, msg);
    LinkLastOf(head + coin + msg, OfferLink(c, l, "Open in Marketplace"));
  }

  lemma OfferResolvedLinkLast(c: Config, l: ListingInfo, o: OfferInfo, accepted: bool)
    ensures LinkLast(OfferResolvedFields(c, l, o, accepted))
  {
    OtherNamesAreNotLinks();
    var ys := [Field(ItemLabel, QuantityAndItem(l), true)] + CoinFields(o, YourOfferLabel);
    assert forall i :: 0 <= i < |ys| ==> ys[i].name in [ItemLabel, YourOfferLabel];
    LinkLastOf(ys, ResolvedLink(c, l, accepted));
  }

  /** In every embed the link field comes last and appears nowhere else, so
      the optional fields always sit before it. */
  lemma LinkFieldIsLast(c: Config, e: Event, u: Recipient, l: ListingInfo, o: OfferInfo)
    ensures LinkLast(EmbedFor(c, e, u, l, o).fields)
  {
    ListingFieldsLinkLast(c, l);
    RemovedFieldsLinkLast(c, l);
    OfferReceivedLinkLast(c, l, o);
    OfferResolvedLinkLast(c, l, o, e == OfferAccepted);
  }
}
