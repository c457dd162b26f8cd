/** Label synthesis (ImageLabelGenerator): an image URL and the ordered list of detected
    objects become one label, "<domain>_<component>", where the domain is the URL's host without
    "www." and a common top-level domain, and the component is the first detected object, or
    else the file name, cleaned up by formatLabel. */
module LabelGenerator {

  import opened Wrappers
  import opened JavaText

  /** What `new URL(imageUrl).getHost()` yields for a URL: None when the constructor throws
      (a malformed URL). URL parsing itself is not part of this model. */
  type HostParser = string -> Option<string>

  /** DOMAIN_REGEX, "www\\.", matches exactly the text "www.". */
  const Www: string := "www."

  /** The four alternatives of TLD_REGEX, "\\.(com|org|net|gov)$". */
  predicate IsStrippedTld(t: string) {
    t == ".com" || t == ".org" || t == ".net" || t == ".gov"
  }

  predicate EndsWithStrippedTld(s: string) {
    |s| >= 4 && IsStrippedTld(s[|s| - 4..])
  }

  // ---------------------------------------------------------------------------
  // Domain
  // ---------------------------------------------------------------------------

  /** `replaceAll(TLD_REGEX, "")`. The pattern contains no line terminator, so it can match only
      where it ends at the `$` position before a final line terminator, or at the very end when
      there is none; at most one match exists, so at most one suffix is removed. */
  function StripTld(host: string): (r: string)
    ensures |r| == |host| || (|r| == |host| - 4 && EndsWithStrippedTld(BeforeEndAnchor(host)))
    ensures |r| == |host| <==> !EndsWithStrippedTld(BeforeEndAnchor(host))
    ensures |r| == |host| ==> r == host
    ensures |r| < |host| ==>
      r == BeforeEndAnchor(host)[..|BeforeEndAnchor(host)| - 4] + FinalTerminator(host)
    ensures NoLineTerminator(host) ==>
      r == if EndsWithStrippedTld(host) then host[..|host| - 4] else host
  {
    var body := BeforeEndAnchor(host);
    if EndsWithStrippedTld(body) then body[..|body| - 4] + FinalTerminator(host) else host
  }

  /** extractDomain, given what parsing the URL produced: "" when parsing failed, otherwise
      the host with its first "www." removed (wherever it occurs) and then one trailing
      ".com", ".org", ".net" or ".gov" removed. */
  function ExtractDomain(host: Option<string>): (domain: string)
    ensures host.None? ==> domain == ""
    ensures host.Some? ==> |domain| <= |host.value|
    ensures host.Some? && NoLineTerminator(host.value) && (forall i :: !OccursAt(host.value, Www, i)) ==>
      domain == if EndsWithStrippedTld(host.value) then host.value[..|host.value| - 4] else host.value
  {
    match host
    case None => ""
    case Some(h) =>
      assert (forall i :: !OccursAt(h, Www, i)) ==> RemoveFirst(h, Www) == h;
      StripTld(RemoveFirst(h, Www))
  }

  /** With "www." first occurring at index i, the domain is the host without those four
      characters, less one common TLD. */
  lemma ExtractDomainDropsFirstWww(h: string, i: nat)
    requires FirstOccursAt(h, Www, i)
    ensures ExtractDomain(Some(h)) == StripTld(h[..i] + h[i + 4..])
  {
  }

  // ---------------------------------------------------------------------------
  // formatLabel(String)
  // ---------------------------------------------------------------------------

  /** The one-argument formatLabel: "" for null or blank text; otherwise lower-cased, spaces
      turned into "_", digits deleted, "-" turned into "_", runs of "_" collapsed, and the
      leading and trailing runs of "_"/"-" removed. */
  function FormatLabel(text: Option<string>): (r: string)
    ensures text.None? || IsBlank(text.value) ==> r == ""
    ensures text.Some? ==> |r| <= |text.value|
    ensures LabelShape(r)
  {
    if text.None? || IsBlank(text.value) then ""
    else
      CleanShape(text.value);
      Clean(text.value)
  }

  /** formatLabel's chain of rewrites, in source order. */
  function Clean(text: string): string
  {
    Tidy(Rewrite(text))
  }

  /** The last three rewrites: collapse runs of "_", then strip both ends. */
  function Tidy(d: string): string
  {
    StripTrailingSeps(StripLeadingSeps(CollapseUnderscores(d)))
  }

  /** The characters a formatted label may hold: no ASCII digit, "-", space or upper-case
      ASCII letter. */
  predicate IsLabelChar(c: char) {
    !IsDigit(c) && c != '-' && c != ' ' && !IsAsciiUpper(c)
  }

  /** The shape of every formatted label: only label characters, no "__", and no "_" at
      either end. */
  predicate LabelShape(g: string) {
    && (forall i :: 0 <= i < |g| ==> IsLabelChar(g[i]))
    && NoDoubleUnderscore(g)
    && (g == [] || (g[0] != '_' && g[|g| - 1] != '_'))
  }

  /** formatLabel's rewrite chain without its two end strips. */
  function Rewrite(text: string): string {
    ReplaceChar(RemoveDigits(ReplaceChar(ToLowerCase(text), ' ', '_')), '-', '_')
  }

  /** Each rewrite removes a kind of character for good, and the last three leave no "__"
      and no "_" at either end. */
  lemma CleanShape(text: string)
    ensures |Clean(text)| <= |text|
    ensures LabelShape(Clean(text))
  {
    var d := Rewrite(text);
    var f := StripLeadingSeps(CollapseUnderscores(d));
    assert Clean(text) == StripTrailingSeps(f);
    CharRewritesShape(text);
    CollapseStripShape(d);
    TrailingStripKeepsChars(f);
    TrailingStripShape(f);
  }

  /** After the four per-character rewrites only label characters remain. */
  lemma CharRewritesShape(text: string)
    ensures |Rewrite(text)| <= |text| && All(Rewrite(text), IsLabelChar)
  {
    var b := ReplaceChar(ToLowerCase(text), ' ', '_');
    var P := (ch: char) => !IsAsciiUpper(ch) && ch != ' ';
    assert All(b, P);
    RemoveDigitsKeeps(b, P);
  }

  /** Collapsing and stripping the leading run keep label characters only, and leave no "__"
      and no leading "_" or "-". */
  lemma CollapseStripShape(d: string)
    requires All(d, IsLabelChar)
    ensures var f := StripLeadingSeps(CollapseUnderscores(d));
      |f| <= |d| && All(f, IsLabelChar) && NoDoubleUnderscore(f) && (f == [] || !IsSep(f[0]))
  {
    CollapseStripChars(d);
    CollapseStripNoDouble(d);
  }

  lemma CollapseStripChars(d: string)
    requires All(d, IsLabelChar)
    ensures All(StripLeadingSeps(CollapseUnderscores(d)), IsLabelChar)
  {
    var e := CollapseUnderscores(d);
    CollapseKeeps(d, IsLabelChar);
    AllSuffix(e, |e| - |StripLeadingSeps(e)|, IsLabelChar);
  }

  lemma CollapseStripNoDouble(d: string)
    ensures NoDoubleUnderscore(StripLeadingSeps(CollapseUnderscores(d)))
  {
    var e := CollapseUnderscores(d);
    CollapseNoDouble(d);
    NoDoubleSuffix(e, |e| - |StripLeadingSeps(e)|);
  }

  /** The trailing strip keeps label characters only. */
  lemma TrailingStripKeepsChars(f: string)
    requires All(f, IsLabelChar)
    ensures var g := StripTrailingSeps(f); |g| <= |f| && All(g, IsLabelChar)
  {
    var body := BeforeEndAnchor(f);
    var tail := FinalTerminator(f);
    var kept := DropTrailingSeps(body);
    assert f == body + tail;
    assert forall i :: 0 <= i < |kept| ==> kept[i] == f[i];
    assert forall i :: 0 <= i < |tail| ==> tail[i] == f[|body| + i];
  }

  /** Removing the trailing run of "_"/"-" leaves no "_" at the end and creates no "__"; a
      string that starts with neither "_" nor "-" still does afterwards. */
  lemma TrailingStripShape(f: string)
    requires NoDoubleUnderscore(f) && (f == [] || !IsSep(f[0]))
    ensures var g := StripTrailingSeps(f);
      && NoDoubleUnderscore(g)
      && (g == [] || (g[0] != '_' && g[|g| - 1] != '_'))
  {
    TrailingStripNoDouble(f);
    TrailingStripEnds(f);
  }

  lemma TrailingStripNoDouble(f: string)
    requires NoDoubleUnderscore(f)
    ensures NoDoubleUnderscore(StripTrailingSeps(f))
  {
    var body := BeforeEndAnchor(f);
    var tail := FinalTerminator(f);
    var kept := DropTrailingSeps(body);
    var g := kept + tail;
    assert f == body + tail;
    forall i | 0 <= i < |g| ensures !DoubleUnderscoreAt(g, i) {
      if i + 1 < |kept| {
        assert g[i] == f[i] && g[i + 1] == f[i + 1];
        assert !DoubleUnderscoreAt(f, i);
      } else if i + 1 == |kept| && i + 1 < |g| {
        assert g[i] == kept[i];
      } else if |kept| <= i < |g| - 1 {
        assert g[i] == tail[i - |kept|];
      }
    }
  }

  lemma TrailingStripEnds(f: string)
    requires f == [] || !IsSep(f[0])
    ensures var g := StripTrailingSeps(f); g == [] || (g[0] != '_' && g[|g| - 1] != '_')
  {
    var body := BeforeEndAnchor(f);
    var tail := FinalTerminator(f);
    var kept := DropTrailingSeps(body);
    var g := kept + tail;
    assert f == body + tail;
    if g != [] {
      if kept != [] {
        assert g[0] == f[0];
      } else {
        assert g[0] == tail[0];
      }
      if tail != [] {
        assert g[|g| - 1] == tail[|tail| - 1];
      } else {
        assert g[|g| - 1] == kept[|kept| - 1];
      }
    }
  }

  // ---------------------------------------------------------------------------
  // formatLabel(String, String)
  // ---------------------------------------------------------------------------

  /** The two-argument formatLabel: domain and component joined by "_" when both are present,
      otherwise whichever one is present, "" when neither is. */
  function JoinLabel(domain: string, component: string): (r: string)
    ensures r == "" <==> domain == "" && component == ""
    ensures |r| == |domain| + |component| + (if domain != "" && component != "" then 1 else 0)
    ensures r[..|domain|] == domain
    ensures r[|r| - |component|..] == component
    ensures domain != "" && component != "" ==> r[|domain|] == '_'
  {
    if domain != "" && component != "" then domain + "_" + component
    else if domain != "" then domain
    else if component != "" then component
    else ""
  }

  // ---------------------------------------------------------------------------
  // File name, label component, label
  // ---------------------------------------------------------------------------

  /** extractImageName: the text strictly between the last "/" and the last "."; None where
      `substring` would throw, that is when the last "." is not after the last "/". */
  function ExtractImageName(url: string): (name: Option<string>)
    ensures name.Some? <==> LastIndexOf(url, '.') >= LastIndexOf(url, '/') + 1
    ensures name.Some? ==> '/' !in name.value
  {
    var slash := LastIndexOf(url, '/');
    var dot := LastIndexOf(url, '.');
    var r := Substring(url, slash + 1, dot);
    assert r.Some? ==> r.value == url[slash + 1..dot];
    r
  }

  /** A URL made of a directory part, a file name and an extension gives back that file name. */
  lemma {:induction false} ExtractImageNameOfPath(dir: string, name: string, ext: string)
    requires dir == [] || dir[|dir| - 1] == '/'
    requires '/' !in name && '/' !in ext && '.' !in ext
    ensures ExtractImageName(dir + name + "." + ext) == Some(name)
  {
    var url := dir + name + "." + ext;
    var slash := LastIndexOf(url, '/');
    var dot := LastIndexOf(url, '.');
    assert url[|dir| + |name|] == '.';
    assert dot == |dir| + |name| by {
      forall i | |dir| + |name| < i < |url| ensures url[i] != '.' {
        assert url[i] == ext[i - |dir| - |name| - 1];
      }
    }
    assert slash == |dir| - 1 by {
      forall i | |dir| <= i < |url| ensures url[i] != '/' {
        if i < |dir| + |name| {
          assert url[i] == name[i - |dir|];
        } else if i > |dir| + |name| {
          assert url[i] == ext[i - |dir| - |name| - 1];
        }
      }
      if dir != [] {
        assert url[|dir| - 1] == '/';
      }
    }
    assert url[|dir|..|dir| + |name|] == name;
  }

  /** A URL whose last path segment has no ".", as "https://example.com/images/cat", has no
      file name: substring throws, and so does generateLabel when there are no objects. */
  lemma {:induction false} GenerateLabelWithoutExtension(parseHost: HostParser, dir: string, name: string)
    requires dir != [] && dir[|dir| - 1] == '/'
    requires '/' !in name && '.' !in name
    ensures ExtractImageName(dir + name) == None
    ensures GenerateLabel(parseHost, dir + name, Some([])) == None
  {
    var url := dir + name;
    assert LastIndexOf(url, '/') == |dir| - 1 by {
      assert url[|dir| - 1] == '/';
      forall i | |dir| <= i < |url| ensures url[i] != '/' {
        assert url[i] == name[i - |dir|];
      }
    }
    forall i | |dir| - 1 <= i < |url| ensures url[i] != '.' {
      if i >= |dir| {
        assert url[i] == name[i - |dir|];
      }
    }
  }

  /** formatLabelFromImageName. */
  function FormatLabelFromImageName(url: string): (c: Option<string>)
    ensures c.Some? <==> ExtractImageName(url).Some?
    ensures c.Some? ==> c.value == FormatLabel(ExtractImageName(url))
  {
    match ExtractImageName(url)
    case None => None
    case Some(name) => Some(FormatLabel(Some(name)))
  }

  /** createLabelComponent: the first detected object, formatted, when there is one; else the
      formatted file name, which fails as extractImageName does. */
  function CreateLabelComponent(url: string, objects: Option<seq<string>>): (c: Option<string>)
    ensures c.None? <==> (objects.None? || objects.value == []) && ExtractImageName(url).None?
  {
    if objects.Some? && objects.value != [] then Some(FormatLabel(Some(objects.value[0])))
    else FormatLabelFromImageName(url)
  }

  /** generateLabel. None means the call throws (no objects and no usable file name). */
  function GenerateLabel(parseHost: HostParser, url: string, objects: Option<seq<string>>): (generated: Option<string>)
    ensures generated.None? <==> (objects.None? || objects.value == []) && ExtractImageName(url).None?
  {
    var domain := ExtractDomain(parseHost(url));
    match CreateLabelComponent(url, objects)
    case None => None
    case Some(component) => Some(JoinLabel(domain, component))
  }

  // ---------------------------------------------------------------------------
  // Properties
  // ---------------------------------------------------------------------------

  /** A non-empty object list decides the component by its first element alone: neither the
      later objects nor the URL play any part. */
  lemma FirstObjectDecides(url1: string, url2: string, objects1: seq<string>, objects2: seq<string>)
    requires objects1 != [] && objects2 != [] && objects1[0] == objects2[0]
    ensures CreateLabelComponent(url1, Some(objects1)) == CreateLabelComponent(url2, Some(objects2))
    ensures CreateLabelComponent(url1, Some(objects1)) == Some(FormatLabel(Some(objects1[0])))
  {
  }

  /** Hence the label ignores every object after the first. */
  lemma LaterObjectsIgnored(parseHost: HostParser, url: string, objects1: seq<string>, objects2: seq<string>)
    requires objects1 != [] && objects2 != [] && objects1[0] == objects2[0]
    ensures GenerateLabel(parseHost, url, Some(objects1)) == GenerateLabel(parseHost, url, Some(objects2))
    ensures GenerateLabel(parseHost, url, Some(objects1)).Some?
  {
    FirstObjectDecides(url, url, objects1, objects2);
  }

  /** Without objects (null or empty) the file name is used, and the two cases agree. */
  lemma NoObjectsUsesFileName(parseHost: HostParser, url: string)
    ensures GenerateLabel(parseHost, url, None) == GenerateLabel(parseHost, url, Some([]))
    ensures CreateLabelComponent(url, Some([])) == FormatLabelFromImageName(url)
  {
  }

  /** A generated label is built from the domain and the component: both joined by "_" when
      neither is empty, otherwise the one that is not (or "" when both are). */
  lemma GeneratedLabelParts(parseHost: HostParser, url: string, objects: Option<seq<string>>)
    requires GenerateLabel(parseHost, url, objects).Some?
    ensures var l := GenerateLabel(parseHost, url, objects).value;
      var domain := ExtractDomain(parseHost(url));
      var component := CreateLabelComponent(url, objects).value;
      && (domain != "" && component != "" ==> l == domain + "_" + component)
      && (domain == "" ==> l == component)
      && (component == "" ==> l == domain)
      && (l == "" <==> domain == "" && component == "")
      && l[..|domain|] == domain
      && l[|l| - |component|..] == component
  {
  }

  /** The characters that formatLabel deletes or turns into the "_" separator. */
  predicate IsDropped(c: char) { IsDigit(c) || c == ' ' || IsSep(c) }

  /** The text with every deleted or separator character removed. */
  function Letters(s: string): string
  {
    if s == [] then [] else (if IsDropped(s[0]) then [] else [s[0]]) + Letters(s[1..])
  }

  lemma {:induction false} LettersAppend(a: string, b: string)
    ensures Letters(a + b) == Letters(a) + Letters(b)
    decreases |a|
  {
    if a != [] {
      assert (a + b)[1..] == a[1..] + b;
      LettersAppend(a[1..], b);
    } else {
      assert a + b == b;
    }
  }

  /** A rewrite that keeps every kept character in place and maps dropped ones to dropped
      ones leaves Letters unchanged. */
  lemma {:induction false} LettersPointwise(s: string, t: string)
    requires |s| == |t|
    requires forall i :: 0 <= i < |s| ==> (IsDropped(s[i]) <==> IsDropped(t[i]))
    requires forall i :: 0 <= i < |s| ==> !IsDropped(s[i]) ==> s[i] == t[i]
    ensures Letters(s) == Letters(t)
  {
    if s != [] {
      LettersPointwise(s[1..], t[1..]);
    }
  }

  lemma {:induction false} LettersRemoveDigits(s: string)
    ensures Letters(RemoveDigits(s)) == Letters(s)
  {
    if s != [] {
      LettersRemoveDigits(s[1..]);
      if !IsDigit(s[0]) {
        assert ([s[0]] + RemoveDigits(s[1..]))[1..] == RemoveDigits(s[1..]);
      }
    }
  }

  lemma {:induction false} LettersCollapse(s: string)
    ensures Letters(CollapseUnderscores(s)) == Letters(s)
  {
    if |s| > 1 {
      LettersCollapse(s[1..]);
      if !(s[0] == '_' && s[1] == '_') {
        assert ([s[0]] + CollapseUnderscores(s[1..]))[1..] == CollapseUnderscores(s[1..]);
      }
    }
  }

  lemma {:induction false} LettersAllDropped(s: string)
    requires forall i :: 0 <= i < |s| ==> IsDropped(s[i])
    ensures Letters(s) == []
  {
    if s != [] {
      LettersAllDropped(s[1..]);
    }
  }

  lemma LettersStripLeading(f: string)
    ensures Letters(StripLeadingSeps(f)) == Letters(f)
  {
    var e := StripLeadingSeps(f);
    var run := f[..|f| - |e|];
    assert f == run + e;
    assert forall k :: 0 <= k < |run| ==> run[k] == f[k];
    LettersAppend(run, e);
    LettersAllDropped(run);
  }

  lemma LettersStripTrailing(f: string)
    ensures Letters(StripTrailingSeps(f)) == Letters(f)
  {
    var body := BeforeEndAnchor(f);
    var tail := FinalTerminator(f);
    assert f == body + tail;
    LettersDropTrailing(body);
    LettersAppend(body, tail);
    LettersAppend(DropTrailingSeps(body), tail);
  }

  lemma LettersDropTrailing(body: string)
    ensures Letters(DropTrailingSeps(body)) == Letters(body)
  {
    var kept := DropTrailingSeps(body);
    var run := body[|kept|..];
    assert body == kept + run;
    assert forall k :: 0 <= k < |run| ==> run[k] == body[|kept| + k];
    LettersAppend(kept, run);
    LettersAllDropped(run);
  }

  /** The last three rewrites delete only dropped characters. */
  lemma LettersTidy(d: string)
    ensures Letters(Tidy(d)) == Letters(d)
  {
    var e := CollapseUnderscores(d);
    LettersCollapse(d);
    LettersStripLeading(e);
    LettersStripTrailing(StripLeadingSeps(e));
  }

  /** formatLabel deletes and separates, but neither reorders nor loses a character: apart
      from the dropped ones (digits, " ", "-", "_"), the label holds exactly the characters of
      the lower-cased text, in order. */
  lemma FormatLabelKeepsLetters(text: string)
    requires !IsBlank(text)
    ensures Letters(FormatLabel(Some(text))) == Letters(ToLowerCase(text))
  {
    FormatLabelIsClean(text);
    LettersTidy(Rewrite(text));
    LettersRewrite(text);
  }

  lemma LettersRewrite(text: string)
    ensures Letters(Rewrite(text)) == Letters(ToLowerCase(text))
  {
    var a := ToLowerCase(text);
    var b := ReplaceChar(a, ' ', '_');
    var c := RemoveDigits(b);
    var d := ReplaceChar(c, '-', '_');
    LettersPointwise(a, b);
    LettersRemoveDigits(b);
    LettersPointwise(c, d);
  }

  /** formatLabel is idempotent on its outputs that are empty, or non-blank and free of line
      terminators. (It is not idempotent in general; see FormatLabelNotIdempotentBlank and
      FormatLabelNotIdempotentNewline.) */
  lemma FormatLabelIdempotent(text: Option<string>)
    requires var r := FormatLabel(text); r == "" || (!IsBlank(r) && NoLineTerminator(r))
    ensures FormatLabel(Some(FormatLabel(text))) == FormatLabel(text)
  {
    var r := FormatLabel(text);
    if r != "" {
      CleanFixesLabels(r);
    }
  }

  /** A string of the shape every label has, and without line terminators, is a fixed point
      of the rewrite chain. */
  lemma CleanFixesLabels(r: string)
    requires LabelShape(r) && NoLineTerminator(r)
    ensures Clean(r) == r
  {
    RewriteFixesLabels(r);
    TidyFixesLabels(r);
  }

  lemma TidyFixesLabels(r: string)
    requires LabelShape(r) && NoLineTerminator(r)
    ensures Tidy(r) == r
  {
    CollapseNoDouble(r);
    assert CollapseUnderscores(r) == r;
    assert r == [] || !IsSep(r[0]);
    assert StripLeadingSeps(r) == r;
    assert r == [] || !IsSep(r[|r| - 1]);
    assert StripTrailingSeps(r) == DropTrailingSeps(r) == r;
  }

  lemma RewriteFixesLabels(r: string)
    requires forall i :: 0 <= i < |r| ==> IsLabelChar(r[i])
    ensures Rewrite(r) == r
  {
    var a := ToLowerCase(r);
    assert forall i :: 0 <= i < |r| ==> a[i] == r[i];
    var b := ReplaceChar(a, ' ', '_');
    assert forall i :: 0 <= i < |r| ==> b[i] == r[i];
    assert RemoveDigits(b) == b;
    var d := ReplaceChar(b, '-', '_');
    assert forall i :: 0 <= i < |r| ==> d[i] == r[i];
  }

  // ---------------------------------------------------------------------------
  // Separators between words
  // ---------------------------------------------------------------------------

  /** formatLabel on two words joined by one space, "-" or "_": the two words formatted on
      their own, joined by "_". Each word must hold a character other than a digit, a space,
      "-" or "_" (else it formats to "" and leaves no word to join), must not be blank, and
      the text must carry no line terminator (with one at its end, `$` would match before it). */
  lemma FormatLabelSeparatorJoin(a: string, c: char, b: string)
    requires c == ' ' || c == '-' || c == '_'
    requires NoLineTerminator(a) && NoLineTerminator(b)
    requires !IsBlank(a) && !IsBlank(b)
    requires Letters(a) != [] && Letters(b) != []
    ensures FormatLabel(Some(a + [c] + b)) == FormatLabel(Some(a)) + "_" + FormatLabel(Some(b))
  {
    var t := a + [c] + b;
    BlankIffAllTrimmable(a);
    BlankIffAllTrimmable(t);
    assert forall k :: 0 <= k < |a| ==> t[k] == a[k];
    FormatLabelIsClean(t);
    FormatLabelIsClean(a);
    FormatLabelIsClean(b);
    RewriteAppend(a, [c]);
    RewriteAppend(a + [c], b);
    RewriteSeparator(c);
    assert Rewrite(t) == Rewrite(a) + "_" + Rewrite(b);
    RewriteJoinable(a);
    RewriteJoinable(b);
    TidyJoin(Rewrite(a), Rewrite(b));
  }

  /** A word made only of characters formatLabel keeps formats to its lower-case form. */
  lemma FormatLabelPlainWord(w: string)
    requires !IsBlank(w)
    requires forall i :: 0 <= i < |w| ==> !IsDropped(w[i]) && !IsLineTerminator(w[i])
    ensures FormatLabel(Some(w)) == ToLowerCase(w)
  {
    FormatLabelIsClean(w);
    RewritePlainWord(w);
    TidyFixesLabels(ToLowerCase(w));
  }

  /** The rewrites only lower-case a word of kept characters, and what they give has the
      label shape. */
  lemma RewritePlainWord(w: string)
    requires forall i :: 0 <= i < |w| ==> !IsDropped(w[i]) && !IsLineTerminator(w[i])
    ensures Rewrite(w) == ToLowerCase(w)
    ensures LabelShape(ToLowerCase(w)) && NoLineTerminator(ToLowerCase(w))
  {
    var l := ToLowerCase(w);
    forall i | 0 <= i < |l| ensures IsLabelChar(l[i]) && l[i] != '_' && !IsLineTerminator(l[i]) {
      LowerKeptChar(w[i]);
    }
    assert ToLowerCase(l) == l;
    RewriteFixesLabels(l);
  }

  /** Lower-casing a kept character gives a kept character again. */
  lemma LowerKeptChar(c: char)
    requires !IsDropped(c) && !IsLineTerminator(c)
    ensures var d := LowerChar(c); IsLabelChar(d) && !IsDropped(d) && !IsLineTerminator(d)
  {
    if IsAsciiUpper(c) {
      assert 'a' as int <= LowerChar(c) as int <= 'z' as int;
    }
  }

  /** The rewrites before the strips work character by character (deleting digits), so the
      chain works piecewise. */
  lemma RewriteAppend(a: string, b: string)
    ensures Rewrite(a + b) == Rewrite(a) + Rewrite(b)
  {
    var la, lb := ToLowerCase(a), ToLowerCase(b);
    assert ToLowerCase(a + b) == la + lb;
    var sa, sb := ReplaceChar(la, ' ', '_'), ReplaceChar(lb, ' ', '_');
    assert ReplaceChar(la + lb, ' ', '_') == sa + sb;
    RemoveDigitsAppend(sa, sb);
    var da, db := RemoveDigits(sa), RemoveDigits(sb);
    assert ReplaceChar(da + db, '-', '_') == ReplaceChar(da, '-', '_') + ReplaceChar(db, '-', '_');
  }

  /** A space, "-" or "_" on its own becomes "_". */
  lemma RewriteSeparator(c: char)
    requires c == ' ' || c == '-' || c == '_'
    ensures Rewrite([c]) == "_"
  {
    assert ToLowerCase([c]) == [c];
    var r := ReplaceChar([c], ' ', '_');
    assert r == (if c == '-' then "-" else "_");
    assert RemoveDigits(r) == r;
  }

  /** What the rewrites make of a word that formatLabel does not reduce to nothing: no "-", no
      line terminator, and some character other than "_". */
  lemma RewriteJoinable(text: string)
    requires NoLineTerminator(text) && Letters(text) != []
    ensures NoLineTerminator(Rewrite(text))
    ensures forall i :: 0 <= i < |Rewrite(text)| ==> Rewrite(text)[i] != '-'
    ensures exists i :: 0 <= i < |Rewrite(text)| && Rewrite(text)[i] != '_'
  {
    RewriteNoLineTerminator(text);
    CharRewritesShape(text);
    assert forall i :: 0 <= i < |Rewrite(text)| ==> IsLabelChar(Rewrite(text)[i]);
    RewriteKeepsLetter(text);
  }

  lemma RewriteNoLineTerminator(text: string)
    requires NoLineTerminator(text)
    ensures NoLineTerminator(Rewrite(text))
  {
    var b := ReplaceChar(ToLowerCase(text), ' ', '_');
    var P := (ch: char) => !IsLineTerminator(ch);
    assert All(b, P);
    RemoveDigitsKeeps(b, P);
  }

  lemma RewriteKeepsLetter(text: string)
    requires Letters(text) != []
    ensures exists i :: 0 <= i < |Rewrite(text)| && !IsDropped(Rewrite(text)[i])
  {
    LettersEmpty(text);
    var k :| 0 <= k < |text| && !IsDropped(text[k]);
    LettersEmpty(ToLowerCase(text));
    assert !IsDropped(ToLowerCase(text)[k]);
    LettersRewrite(text);
    LettersEmpty(Rewrite(text));
  }


  /** Letters is empty exactly when every character is a dropped one. */
  lemma {:induction false} LettersEmpty(s: string)
    ensures Letters(s) == [] <==> forall i :: 0 <= i < |s| ==> IsDropped(s[i])
  {
    if s != [] {
      LettersEmpty(s[1..]);
      assert forall i :: 1 <= i < |s| ==> s[i] == s[1..][i - 1];
    }
  }

  /** The last three rewrites on two rewritten words around one "_": each word tidied on its own,
      joined by "_". */
  lemma TidyJoin(x: string, y: string)
    requires NoLineTerminator(x) && NoLineTerminator(y)
    requires forall i :: 0 <= i < |x| ==> x[i] != '-'
    requires forall i :: 0 <= i < |y| ==> y[i] != '-'
    requires exists i :: 0 <= i < |x| && x[i] != '_'
    requires exists i :: 0 <= i < |y| && y[i] != '_'
    ensures Tidy(x + "_" + y) == Tidy(x) + "_" + Tidy(y)
  {
    var p, u := TrailingUnderscores(x);
    var v, q := LeadingUnderscores(y);
    var P, Q := CollapseUnderscores(p), CollapseUnderscores(q);
    CollapseAtJoin(p, u, v, q);
    assert x + "_" + y == p + (u + "_" + v) + q;
    StripAroundJoin(P, Q);
    assert Tidy(x + "_" + y) == StripLeadingSeps(P) + "_" + DropTrailingSeps(Q);
    TidyLeft(p, u);
    TidyRight(v, q);
  }

  /** Collapsing two words joined by "_": the underscores around the join become one and each
      word's kept part collapses on its own. */
  lemma {:induction false} CollapseAtJoin(p: string, u: string, v: string, q: string)
    requires p != [] && !IsSep(p[|p| - 1]) && !IsLineTerminator(p[|p| - 1])
    requires q != [] && !IsSep(q[0]) && !IsLineTerminator(q[|q| - 1])
    requires forall k :: 0 <= k < |u| ==> u[k] == '_'
    requires forall k :: 0 <= k < |v| ==> v[k] == '_'
    ensures var P, Q := CollapseUnderscores(p), CollapseUnderscores(q);
      && CollapseUnderscores(p + (u + "_" + v) + q) == P + "_" + Q
      && P != [] && !IsSep(P[|P| - 1]) && !IsLineTerminator(P[|P| - 1])
      && Q != [] && !IsSep(Q[0]) && !IsLineTerminator(Q[|Q| - 1])
  {
    var P, Q := CollapseUnderscores(p), CollapseUnderscores(q);
    assert P[|P| - 1] == p[|p| - 1] && Q[0] == q[0] && Q[|Q| - 1] == q[|q| - 1];
    var run := u + "_" + v;
    CollapseJoiningRun(u, v);
    CollapseJoin(p, run, q);
  }

  /** Both strips stop at the kept characters either side of the joining "_". */
  lemma StripAroundJoin(P: string, Q: string)
    requires P != [] && !IsSep(P[|P| - 1])
    requires Q != [] && !IsSep(Q[0]) && !IsLineTerminator(Q[|Q| - 1])
    ensures StripTrailingSeps(StripLeadingSeps(P + "_" + Q)) == StripLeadingSeps(P) + "_" + DropTrailingSeps(Q)
  {
    StripLeadingJoin(P, Q);
    StripTrailingJoin(StripLeadingSeps(P), Q);
  }

  lemma StripLeadingJoin(P: string, Q: string)
    requires P != [] && !IsSep(P[|P| - 1])
    ensures StripLeadingSeps(P + "_" + Q) == StripLeadingSeps(P) + "_" + Q
  {
    var uq := "_" + Q;
    StripLeadingBeforeKept(P, uq);
    assert P + "_" + Q == P + uq;
    assert StripLeadingSeps(P) + uq == StripLeadingSeps(P) + "_" + Q;
  }

  lemma StripTrailingJoin(lp: string, Q: string)
    requires Q != [] && !IsSep(Q[0]) && !IsLineTerminator(Q[|Q| - 1])
    ensures StripTrailingSeps(lp + "_" + Q) == lp + "_" + DropTrailingSeps(Q)
  {
    var m := lp + "_" + Q;
    assert m[|m| - 1] == Q[|Q| - 1];
    StripTrailingAtVisibleEnd(m);
    DropTrailingAfterKept(lp + "_", Q);
  }


  /** A rewritten word is its last kept character and what precedes it, followed by a run of "_". */
  lemma TrailingUnderscores(x: string) returns (p: string, u: string)
    requires NoLineTerminator(x)
    requires forall i :: 0 <= i < |x| ==> x[i] != '-'
    requires exists i :: 0 <= i < |x| && x[i] != '_'
    ensures x == p + u && p != [] && !IsSep(p[|p| - 1]) && !IsLineTerminator(p[|p| - 1])
    ensures forall k :: 0 <= k < |u| ==> u[k] == '_'
  {
    p := DropTrailingSeps(x);
    u := x[|p|..];
    assert x == p + u;
    assert forall k :: 0 <= k < |u| ==> u[k] == x[|p| + k];
    assert forall k :: 0 <= k < |p| ==> p[k] == x[k];
  }

  /** ... and is also a run of "_" followed by its first kept character and what follows. */
  lemma LeadingUnderscores(y: string) returns (v: string, q: string)
    requires NoLineTerminator(y)
    requires forall i :: 0 <= i < |y| ==> y[i] != '-'
    requires exists i :: 0 <= i < |y| && y[i] != '_'
    ensures y == v + q && q != [] && !IsSep(q[0]) && !IsLineTerminator(q[|q| - 1])
    ensures forall k :: 0 <= k < |v| ==> v[k] == '_'
  {
    q := StripLeadingSeps(y);
    v := y[..|y| - |q|];
    assert y == v + q;
    assert q[|q| - 1] == y[|y| - 1];
    forall k | 0 <= k < |v| ensures v[k] == '_' {
      assert v[k] == y[k];
    }
  }


  /** A run that collapses to "_", between two kept characters, stays one "_". */
  lemma CollapseJoin(p: string, run: string, q: string)
    requires p != [] && p[|p| - 1] != '_' && q != [] && q[0] != '_'
    requires CollapseUnderscores(run) == "_"
    ensures CollapseUnderscores(p + run + q) ==
      CollapseUnderscores(p) + "_" + CollapseUnderscores(q)
  {
    var rq := run + q;
    assert p + run + q == p + rq;
    CollapseAppend(run, q);
    CollapseAppend(p, rq);
  }

  /** A run of "_" with the joining "_" in it collapses to that one. */
  lemma CollapseJoiningRun(u: string, v: string)
    requires forall k :: 0 <= k < |u| ==> u[k] == '_'
    requires forall k :: 0 <= k < |v| ==> v[k] == '_'
    ensures CollapseUnderscores(u + "_" + v) == "_"
  {
    var run := u + "_" + v;
    forall k | 0 <= k < |run| ensures run[k] == '_' {
      if k < |u| { assert run[k] == u[k]; }
      else if k > |u| { assert run[k] == v[k - |u| - 1]; }
    }
    assert run == seq(|run|, _ => '_');
    CollapseRun(|run|);
  }

  /** Tidying the left word leaves its stripped kept part: the trailing run goes. */
  lemma TidyLeft(p: string, u: string)
    requires p != [] && !IsSep(p[|p| - 1]) && !IsLineTerminator(p[|p| - 1])
    requires forall k :: 0 <= k < |u| ==> u[k] == '_'
    ensures Tidy(p + u) == StripLeadingSeps(CollapseUnderscores(p))
  {
    var P, cu := CollapseUnderscores(p), CollapseUnderscores(u);
    CollapseBeforeRun(p, u);
    var c := p[|p| - 1];
    assert P != [] && P[|P| - 1] == c;
    assert IsSepRun(cu);
    StripBeforeSepRun(P, cu);
  }

  /** Collapsing a kept text followed by underscores collapses each part on its own; the run
      becomes separators only and the text keeps its last character. */
  lemma CollapseBeforeRun(p: string, u: string)
    requires p != [] && !IsSep(p[|p| - 1]) && !IsLineTerminator(p[|p| - 1])
    requires forall k :: 0 <= k < |u| ==> u[k] == '_'
    ensures var P := CollapseUnderscores(p);
      && CollapseUnderscores(p + u) == P + CollapseUnderscores(u)
      && P != [] && P[|P| - 1] == p[|p| - 1] && IsSepRun(CollapseUnderscores(u))
      && Tidy(p + u) == StripTrailingSeps(StripLeadingSeps(P + CollapseUnderscores(u)))
  {
    CollapseAppend(p, u);
    CollapseSepRun(u);
  }

  /** Both strips on a kept text followed by separators only: the separators go, and the
      leading strip stays inside the text. */
  lemma StripBeforeSepRun(P: string, s: string)
    requires P != [] && !IsSep(P[|P| - 1]) && !IsLineTerminator(P[|P| - 1])
    requires IsSepRun(s)
    ensures StripTrailingSeps(StripLeadingSeps(P + s)) == StripLeadingSeps(P)
  {
    StripLeadingBeforeKept(P, s);
    var lp := StripLeadingSeps(P);
    assert lp != [] && lp[|lp| - 1] == P[|P| - 1];
    StripTrailingSepRun(lp, s);
  }

  /** The trailing strip on a kept text followed by separators only removes those separators. */
  lemma StripTrailingSepRun(p: string, s: string)
    requires p != [] && !IsSep(p[|p| - 1]) && !IsLineTerminator(p[|p| - 1])
    requires IsSepRun(s)
    ensures StripTrailingSeps(p + s) == p
  {
    var m := p + s;
    if s == [] {
      assert m == p;
    } else {
      assert m[|m| - 1] == s[|s| - 1];
    }
    StripTrailingAtVisibleEnd(m);
    DropTrailingSepRun(p, s);
  }

  /** A run of "_" collapses to separators only. */
  lemma CollapseSepRun(u: string)
    requires forall k :: 0 <= k < |u| ==> u[k] == '_'
    ensures IsSepRun(CollapseUnderscores(u))
  {
    assert All(u, IsSep);
    CollapseKeeps(u, IsSep);
  }

  /** Tidying the right word leaves its kept part with the trailing run dropped: the leading
      run goes. */
  lemma TidyRight(v: string, q: string)
    requires q != [] && !IsSep(q[0]) && !IsLineTerminator(q[|q| - 1])
    requires forall k :: 0 <= k < |v| ==> v[k] == '_'
    ensures Tidy(v + q) == DropTrailingSeps(CollapseUnderscores(q))
  {
    var Q := CollapseUnderscores(q);
    CollapseAppend(v, q);
    var cv := CollapseUnderscores(v);
    CollapseSepRun(v);
    StripLeadingSepRun(cv, Q);
    StripTrailingAtVisibleEnd(Q);
  }

  // ---------------------------------------------------------------------------
  // Families of worked examples
  // ---------------------------------------------------------------------------

  /** A non-empty run of lower-case ASCII letters. */
  predicate IsLowerWord(w: string) {
    w != [] && forall i :: 0 <= i < |w| ==> 'a' <= w[i] <= 'z'
  }

  /** "www." followed by a name and one of the stripped top-level domains leaves the name. */
  lemma ExtractDomainWwwName(name: string, tld: string)
    requires NoLineTerminator(name) && IsStrippedTld(tld)
    ensures ExtractDomain(Some(Www + name + tld)) == name
  {
    var h := Www + name + tld;
    WwwNameFacts(name, tld);
    ExtractDomainDropsFirstWww(h, 0);
  }

  lemma WwwNameFacts(name: string, tld: string)
    requires NoLineTerminator(name) && IsStrippedTld(tld)
    ensures var h := Www + name + tld;
      && FirstOccursAt(h, Www, 0)
      && StripTld(h[..0] + h[4..]) == name
  {
    var h := Www + name + tld;
    var rest := name + tld;
    WwwPrefix(rest);
    assert h == Www + rest;
    StripTldOfName(name, tld);
  }

  lemma WwwPrefix(rest: string)
    ensures var h := Www + rest; FirstOccursAt(h, Www, 0) && h[..0] + h[4..] == rest
  {
    var h := Www + rest;
    assert h[..4] == Www;
    FirstOccurrence(h, Www, 0);
  }

  lemma StripTldOfName(name: string, tld: string)
    requires NoLineTerminator(name) && IsStrippedTld(tld)
    ensures StripTld(name + tld) == name
  {
    var rest := name + tld;
    assert NoLineTerminator(rest) by {
      forall i | 0 <= i < |rest| ensures !IsLineTerminator(rest[i]) {
        if i < |name| {
          assert rest[i] == name[i];
        } else {
          assert rest[i] == tld[i - |name|];
        }
      }
    }
    assert EndsWithStrippedTld(rest) by {
      assert rest[|rest| - 4..] == tld;
    }
    assert rest[..|rest| - 4] == name;
  }

  /** A non-empty run of ASCII letters of either case. */
  predicate IsLetterWord(w: string) {
    w != [] && forall i :: 0 <= i < |w| ==> 'a' <= w[i] <= 'z' || IsAsciiUpper(w[i])
  }

  /** A run of ASCII digits, possibly empty. */
  predicate IsDigitRun(d: string) {
    forall i :: 0 <= i < |d| ==> IsDigit(d[i])
  }

  /** Two words, a space between them, and "_" and a run of digits after them, as in
      "Test Image_123": the label is the two words lower-cased and joined by "_". */
  lemma FormatLabelWordsAndNumber(a: string, b: string, d: string)
    requires IsLetterWord(a) && IsLetterWord(b) && IsDigitRun(d)
    ensures FormatLabel(Some(a + " " + b + "_" + d)) == ToLowerCase(a) + "_" + ToLowerCase(b)
  {
    var t := a + " " + b + "_" + d;
    var la, lb := ToLowerCase(a), ToLowerCase(b);
    assert t[0] == a[0];
    VisibleFirstNotBlank(t);
    RewriteWordsAndNumber(a, b, d);
    LowerLetterWord(a);
    LowerLetterWord(b);
    JoinedWordsShape(la, lb);
    TidyDropsOneUnderscore(la + "_" + lb);
    FormatLabelIsClean(t);
  }

  lemma RewriteWordsAndNumber(a: string, b: string, d: string)
    requires IsLetterWord(a) && IsLetterWord(b) && IsDigitRun(d)
    ensures Rewrite(a + " " + b + "_" + d) == ToLowerCase(a) + "_" + ToLowerCase(b) + "_"
  {
    var la, lb := ToLowerCase(a), ToLowerCase(b);
    LowerLetterWord(a);
    LowerLetterWord(b);
    SpacedWordsLowered(a, b, d);
    LowerWordsUnderscored(la, lb);
    DigitsAfterLabel(la + "_" + lb + "_", d);
  }

  lemma LowerWordsUnderscored(a: string, b: string)
    requires IsLowerWord(a) && IsLowerWord(b)
    ensures forall i :: 0 <= i < |a + "_" + b + "_"| ==> IsLabelChar((a + "_" + b + "_")[i])
  {
    var x := a + "_" + b + "_";
    forall i | 0 <= i < |x| ensures IsLabelChar(x[i]) {
      if i < |a| {
        assert x[i] == a[i];
      } else if |a| < i < |a| + 1 + |b| {
        assert x[i] == b[i - |a| - 1];
      }
    }
  }

  /** A file name made of a lower-case word, "_" and a run of digits, as in "cat_123": the label
      is the word. */
  lemma FormatLabelWordAndNumber(w: string, d: string)
    requires IsLowerWord(w) && IsDigitRun(d)
    ensures FormatLabel(Some(w + "_" + d)) == w
  {
    var t := w + "_" + d;
    assert t[0] == w[0];
    VisibleFirstNotBlank(t);
    RewriteWordAndNumber(w, d);
    LowerWordShape(w);
    TidyDropsOneUnderscore(w);
    FormatLabelIsClean(t);
  }

  lemma RewriteWordAndNumber(w: string, d: string)
    requires IsLowerWord(w) && IsDigitRun(d)
    ensures Rewrite(w + "_" + d) == w + "_"
  {
    var t := w + "_" + d;
    var spaced := ReplaceChar(ToLowerCase(t), ' ', '_');
    forall i | 0 <= i < |t| ensures spaced[i] == t[i] {
      if i < |w| {
        assert t[i] == w[i];
      } else if i > |w| {
        assert t[i] == d[i - |w| - 1];
      }
    }
    assert spaced == (w + "_") + d;
    forall i | 0 <= i < |w + "_"| ensures IsLabelChar((w + "_")[i]) {
      if i < |w| {
        assert (w + "_")[i] == w[i];
      }
    }
    DigitsAfterLabel(w + "_", d);
  }

  /** A lower-case word formats to itself. */
  lemma FormatLabelLowerWord(w: string)
    requires IsLowerWord(w)
    ensures FormatLabel(Some(w)) == w
  {
    assert w[0] > ' ';
    VisibleFirstNotBlank(w);
    LowerWordShape(w);
    CleanFixesLabels(w);
    FormatLabelIsClean(w);
  }

  lemma LowerLetterWord(w: string)
    requires IsLetterWord(w)
    ensures IsLowerWord(ToLowerCase(w))
  {
  }

  lemma LowerWordShape(w: string)
    requires IsLowerWord(w)
    ensures LabelShape(w) && NoLineTerminator(w)
  {
    forall i | 0 <= i < |w| ensures !DoubleUnderscoreAt(w, i) {
      assert w[i] != '_';
    }
  }

  /** Lower-casing and turning the space into "_". */
  lemma SpacedWordsLowered(a: string, b: string, d: string)
    requires IsLetterWord(a) && IsLetterWord(b) && IsDigitRun(d)
    ensures ReplaceChar(ToLowerCase(a + " " + b + "_" + d), ' ', '_')
      == (ToLowerCase(a) + "_" + ToLowerCase(b) + "_") + d
  {
    var t := a + " " + b + "_" + d;
    var la, lb := ToLowerCase(a), ToLowerCase(b);
    var spaced := ReplaceChar(ToLowerCase(t), ' ', '_');
    var m := (la + "_" + lb + "_") + d;
    var nb := |a| + 1;
    var nd := |a| + |b| + 2;
    forall i | 0 <= i < |t| ensures spaced[i] == m[i] {
      if i < |a| {
        assert t[i] == a[i] && m[i] == la[i];
      } else if nb <= i < nb + |b| {
        assert t[i] == b[i - nb] && m[i] == lb[i - nb];
      } else if nd <= i {
        assert t[i] == d[i - nd] && m[i] == d[i - nd];
      }
    }
  }

  /** Removing digits from a label-shaped text followed by digits leaves the text; the "-"
      rewrite then changes nothing. */
  lemma DigitsAfterLabel(x: string, d: string)
    requires forall i :: 0 <= i < |x| ==> IsLabelChar(x[i])
    requires IsDigitRun(d)
    ensures RemoveDigits(x + d) == x && ReplaceChar(x, '-', '_') == x
  {
    RemoveDigitsAppend(x, d);
    RemoveDigitsAllDigits(d);
    assert RemoveDigits(x) == x;
    assert forall i :: 0 <= i < |x| ==> ReplaceChar(x, '-', '_')[i] == x[i];
  }

  /** A label-shaped text followed by one "_" loses that "_" and nothing else. */
  lemma TidyDropsOneUnderscore(r: string)
    requires r != [] && LabelShape(r) && NoLineTerminator(r)
    ensures Tidy(r + "_") == r
  {
    var s := r + "_";
    assert NoDoubleUnderscore(s) by {
      forall i | 0 <= i < |s| ensures !DoubleUnderscoreAt(s, i) {
        if i < |r| - 1 {
          assert s[i] == r[i] && s[i + 1] == r[i + 1];
          assert !DoubleUnderscoreAt(r, i);
        } else if i == |r| - 1 {
          assert s[i] == r[|r| - 1];
        }
      }
    }
    CollapseNoDouble(s);
    assert s[0] == r[0];
    assert StripLeadingSeps(s) == s;
    OneUnderscoreTrailing(r);
  }

  lemma OneUnderscoreTrailing(r: string)
    requires r != [] && LabelShape(r) && NoLineTerminator(r)
    ensures StripTrailingSeps(r + "_") == r
  {
    var s := r + "_";
    assert s[|s| - 1] == '_' && s[..|s| - 1] == r;
    assert EndAnchorSuffix(s) == 0;
    assert !IsSep(r[|r| - 1]);
    assert DropTrailingSeps(r) == r;
    assert DropTrailingSeps(s) == r;
  }

  lemma JoinedWordsShape(a: string, b: string)
    requires IsLowerWord(a) && IsLowerWord(b)
    ensures LabelShape(a + "_" + b) && NoLineTerminator(a + "_" + b)
  {
    var r := a + "_" + b;
    forall i | 0 <= i < |r| ensures r[i] == '_' || 'a' <= r[i] <= 'z' {
      if i < |a| {
        assert r[i] == a[i];
      } else if i > |a| {
        assert r[i] == b[i - |a| - 1];
      }
    }
    forall i | 0 <= i < |r| ensures !DoubleUnderscoreAt(r, i) {
      if i < |a| - 1 {
        assert r[i] == a[i];
      } else if i == |a| - 1 {
        assert r[i] == a[|a| - 1];
      } else if |a| <= i < |r| - 1 {
        assert r[i + 1] == b[i - |a|];
      }
    }
    assert r[0] == a[0] && r[|r| - 1] == b[|b| - 1];
  }

  /** A text made of digits only is not blank, yet formats to "". */
  lemma FormatLabelDigitsOnly(s: string)
    requires s != [] && forall i :: 0 <= i < |s| ==> IsDigit(s[i])
    ensures !IsBlank(s) && FormatLabel(Some(s)) == ""
  {
    assert !IsTrimmable(s[0]);
    var b := ReplaceChar(ToLowerCase(s), ' ', '_');
    assert forall i :: 0 <= i < |s| ==> b[i] == s[i];
    RemoveDigitsAllDigits(b);
    assert Rewrite(s) == "";
  }

  /** Where idempotence fails, blank way: "_", a control character other than a line
      terminator, "_" formats to that character alone, which the next call discards as
      blank. */
  lemma FormatLabelNotIdempotentBlank(c: char)
    requires c < ' ' && !IsLineTerminator(c)
    ensures FormatLabel(Some("_" + [c] + "_")) == [c]
    ensures FormatLabel(Some([c])) == ""
  {
    var s := "_" + [c] + "_";
    assert s == ['_', c, '_'];
    VisibleFirstNotBlank(s);
    ControlCharRewrite(c);
    TidyControlChar(c);
    FormatLabelIsClean(s);
    assert IsBlank([c]) by { assert IsTrimmable([c][0]); }
  }

  lemma ControlCharRewrite(c: char)
    requires c < ' ' && !IsLineTerminator(c)
    ensures Rewrite(['_', c, '_']) == ['_', c, '_']
  {
    var s := ['_', c, '_'];
    assert IsLabelChar(s[0]) && IsLabelChar(s[1]) && IsLabelChar(s[2]);
    RewriteFixesLabels(s);
  }

  lemma TidyControlChar(c: char)
    requires c < ' ' && !IsLineTerminator(c)
    ensures Tidy(['_', c, '_']) == [c]
  {
    ControlCharCollapse(c);
    ControlCharLeading(c);
    ControlCharTrailing(c);
  }

  lemma ControlCharCollapse(c: char)
    requires c < ' '
    ensures CollapseUnderscores(['_', c, '_']) == ['_', c, '_']
  {
    var s := ['_', c, '_'];
    assert NoDoubleUnderscore(s) by {
      assert !DoubleUnderscoreAt(s, 0) && !DoubleUnderscoreAt(s, 1) && !DoubleUnderscoreAt(s, 2);
    }
    CollapseNoDouble(s);
  }

  lemma ControlCharLeading(c: char)
    requires c < ' '
    ensures StripLeadingSeps(['_', c, '_']) == [c, '_']
  {
    var s := ['_', c, '_'];
    assert s[1..] == [c, '_'];
  }

  lemma ControlCharTrailing(c: char)
    requires c < ' ' && !IsLineTerminator(c)
    ensures StripTrailingSeps([c, '_']) == [c]
  {
    var s := [c, '_'];
    assert EndAnchorSuffix(s) == 0;
    assert BeforeEndAnchor(s) == s;
    assert s[..1] == [c];
    assert DropTrailingSeps(s) == [c];
  }

  /** Where idempotence fails although the label has a letter: since `$` also matches just
      before a final line terminator, a word followed by "_", "\n", "_" loses only its last
      "_", and the next call removes the "_" before the "\n". */
  lemma FormatLabelNotIdempotentNewline(w: string)
    requires IsLowerWord(w)
    ensures FormatLabel(Some(w + "_\n_")) == w + "_\n"
    ensures FormatLabel(Some(w + "_\n")) == w + "\n"
  {
    NewlineFirstPass(w);
    NewlineSecondPass(w);
  }

  lemma NewlineFirstPass(w: string)
    requires IsLowerWord(w)
    ensures FormatLabel(Some(w + "_\n_")) == w + "_\n"
  {
    var s := w + "_\n_";
    VisibleFirstNotBlank(s);
    WordTailLabelChars(w, "_\n_");
    RewriteFixesLabels(s);
    TidyFirstPass(w);
    FormatLabelIsClean(s);
  }

  lemma NewlineSecondPass(w: string)
    requires IsLowerWord(w)
    ensures FormatLabel(Some(w + "_\n")) == w + "\n"
  {
    var s := w + "_\n";
    VisibleFirstNotBlank(s);
    WordTailLabelChars(w, "_\n");
    RewriteFixesLabels(s);
    TidySecondPass(w);
    FormatLabelIsClean(s);
  }

  /** A text whose first character is visible is not blank. */
  lemma VisibleFirstNotBlank(t: string)
    requires t != [] && t[0] > ' '
    ensures !IsBlank(t)
  {
    assert !IsTrimmable(t[0]);
  }

  /** On text that is not blank, formatLabel is the rewrite chain. */
  lemma FormatLabelIsClean(t: string)
    requires !IsBlank(t)
    ensures FormatLabel(Some(t)) == Tidy(Rewrite(t))
  {
  }

  lemma WordTailLabelChars(w: string, tail: string)
    requires IsLowerWord(w) && forall i :: 0 <= i < |tail| ==> IsLabelChar(tail[i])
    ensures forall i :: 0 <= i < |w + tail| ==> IsLabelChar((w + tail)[i])
  {
    var s := w + tail;
    forall i | 0 <= i < |s| ensures IsLabelChar(s[i]) {
      if i < |w| {
        assert s[i] == w[i];
      } else {
        assert s[i] == tail[i - |w|];
      }
    }
  }

  /** A word followed by "_" or "_\n" or "_\n_" has no "__" and starts with a letter. */
  lemma WordTailShape(w: string, tail: string)
    requires IsLowerWord(w) && (tail == "_" || tail == "_\n" || tail == "_\n_")
    ensures NoDoubleUnderscore(w + tail) && (w + tail)[0] == w[0]
  {
    var s := w + tail;
    forall i | 0 <= i < |s| ensures !DoubleUnderscoreAt(s, i) {
      if i < |w| {
        assert s[i] == w[i];
      } else {
        assert s[i] == tail[i - |w|];
        assert i + 1 < |s| ==> s[i + 1] == tail[i + 1 - |w|];
      }
    }
  }

  lemma TidyFirstPass(w: string)
    requires IsLowerWord(w)
    ensures Tidy(w + "_\n_") == w + "_\n"
  {
    WordTailLeading(w, "_\n_");
    FirstPassTrailing(w);
  }

  /** Collapsing and the leading strip leave a word with such a tail as it is. */
  lemma WordTailLeading(w: string, tail: string)
    requires IsLowerWord(w) && (tail == "_" || tail == "_\n" || tail == "_\n_")
    ensures StripLeadingSeps(CollapseUnderscores(w + tail)) == w + tail
  {
    var s := w + tail;
    WordTailShape(w, tail);
    CollapseNoDouble(s);
    assert !IsSep(s[0]);
  }

  lemma FirstPassTrailing(w: string)
    requires IsLowerWord(w)
    ensures StripTrailingSeps(w + "_\n_") == w + "_\n"
  {
    var s := w + "_\n_";
    var u := w + "_\n";
    assert s == u + "_";
    assert s[|s| - 1] == '_' && s[..|s| - 1] == u;
    assert EndAnchorSuffix(s) == 0;
    assert u[|u| - 1] == '\n';
    assert DropTrailingSeps(u) == u;
    assert DropTrailingSeps(s) == u;
  }

  lemma TidySecondPass(w: string)
    requires IsLowerWord(w)
    ensures Tidy(w + "_\n") == w + "\n"
  {
    WordTailLeading(w, "_\n");
    SecondPassTrailing(w);
  }

  lemma SecondPassTrailing(w: string)
    requires IsLowerWord(w)
    ensures StripTrailingSeps(w + "_\n") == w + "\n"
  {
    var s := w + "_\n";
    var body := w + "_";
    assert s == body + "\n";
    assert s[|s| - 1] == '\n' && s[|s| - 2] == '_';
    assert EndAnchorSuffix(s) == 1;
    assert BeforeEndAnchor(s) == body;
    assert FinalTerminator(s) == "\n";
    assert body[|body| - 1] == '_' && body[..|body| - 1] == w;
    assert !IsSep(w[|w| - 1]);
    assert DropTrailingSeps(w) == w;
    assert DropTrailingSeps(body) == w;
  }

  /** A host without "www." and with one of the stripped top-level domains, as "example.com":
      the domain is the name before that suffix. */
  lemma ExtractDomainNameTld(name: string, tld: string)
    requires NoLineTerminator(name) && IsStrippedTld(tld)
    requires forall j :: 0 <= j < |name| ==> name[j] != 'w'
    ensures ExtractDomain(Some(name + tld)) == name
  {
    var h := name + tld;
    forall j | 0 <= j < |h| ensures h[j] != Www[0] {
      if j < |name| {
        assert h[j] == name[j];
      } else {
        assert h[j] == tld[j - |name|];
      }
    }
    NoOccurrenceWithoutHead(h, Www);
    StripTldOfName(name, tld);
  }

  /** With no objects, a URL whose file name is a word, "_" and digits, as
      ".../images/cat_123.jpg", is labelled with the domain and that word. */
  lemma GenerateLabelFromFileName(parseHost: HostParser, dir: string, w: string, d: string, ext: string,
                                  objects: Option<seq<string>>)
    requires objects == None || objects == Some([])
    requires dir == [] || dir[|dir| - 1] == '/'
    requires IsLowerWord(w) && IsDigitRun(d) && '/' !in ext && '.' !in ext
    ensures var url := dir + w + "_" + d + "." + ext;
      GenerateLabel(parseHost, url, objects) == Some(JoinLabel(ExtractDomain(parseHost(url)), w))
  {
    var url := dir + w + "_" + d + "." + ext;
    WordNumberComponent(dir, w, d, ext);
    assert CreateLabelComponent(url, objects) == Some(w);
  }

  lemma WordNumberComponent(dir: string, w: string, d: string, ext: string)
    requires dir == [] || dir[|dir| - 1] == '/'
    requires IsLowerWord(w) && IsDigitRun(d) && '/' !in ext && '.' !in ext
    ensures FormatLabelFromImageName(dir + w + "_" + d + "." + ext) == Some(w)
  {
    WordNumberImageName(dir, w, d, ext);
    FormatLabelWordAndNumber(w, d);
  }

  lemma WordNumberImageName(dir: string, w: string, d: string, ext: string)
    requires dir == [] || dir[|dir| - 1] == '/'
    requires IsLowerWord(w) && IsDigitRun(d) && '/' !in ext && '.' !in ext
    ensures ExtractImageName(dir + w + "_" + d + "." + ext) == Some(w + "_" + d)
  {
    var name := w + "_" + d;
    assert '/' !in name by {
      forall i | 0 <= i < |name| ensures name[i] != '/' {
        if i < |w| {
          assert name[i] == w[i];
        } else if i > |w| {
          assert name[i] == d[i - |w| - 1];
        }
      }
    }
    assert dir + w + "_" + d + "." + ext == dir + name + "." + ext;
    ExtractImageNameOfPath(dir, name, ext);
  }

  /** With objects, a first object that is a lower-case word, as "cat" in ["cat", "dog"], is
      the component, whatever the URL and the later objects. */
  lemma GenerateLabelFromFirstObject(parseHost: HostParser, url: string, w: string, rest: seq<string>)
    requires IsLowerWord(w)
    ensures GenerateLabel(parseHost, url, Some([w] + rest)) == Some(JoinLabel(ExtractDomain(parseHost(url)), w))
  {
    FormatLabelLowerWord(w);
  }
}
