/** Output filenames (src/store/output-images/utils.ts): the `{keyword}`
    pattern engine, the prefix/stem/suffix fallback and the choice between
    them. */
module Filenames {
  import opened Common
  import opened Types

  const FilenameKeyword := "filename"
  const IndexKeyword := "index"
  const WidthKeyword := "width"
  const HeightKeyword := "height"

  /** Zero-padding of `{index,N}` never goes beyond this many characters. */
  const MaxPad := 5

  // ---------------------------------------------------------------------
  // The token regular expression /{([\w,]+)}/

  /** A character of the class `[\w,]`. */
  predicate IsTokenChar(c: char) {
    ('a' <= c <= 'z') || ('A' <= c <= 'Z') || ('0' <= c <= '9') || c == '_' || c == ','
  }

  /** A whole token: `{`, one or more token characters, `}`. */
  predicate IsToken(t: string) {
    |t| >= 3 && t[0] == '{' && t[|t| - 1] == '}'
    && forall k :: 0 < k < |t| - 1 ==> IsTokenChar(t[k])
  }

  /** The end of the run of token characters starting at `i`. */
  function RunEnd(s: string, i: nat): (j: nat)
    requires i <= |s|
    ensures i <= j <= |s|
    ensures j < |s| ==> !IsTokenChar(s[j])
    decreases |s| - i
  {
    if i == |s| || !IsTokenChar(s[i]) then i else RunEnd(s, i + 1)
  }

  /** Every character of the run is a token character. */
  lemma {:induction false} RunEndCovers(s: string, i: nat, k: nat)
    requires i <= |s| && i <= k < RunEnd(s, i)
    ensures IsTokenChar(s[k])
    decreases |s| - i
  {
    if k > i {
      RunEndCovers(s, i + 1, k);
    }
  }

  /** Whether the regular expression matches at position `p`, and if so the
      position just after the match. Greedy matching of `[\w,]+` cannot give
      back a `}` because `}` is not a token character, so the match is the
      token character run followed by `}`. */
  function MatchAt(s: string, p: nat): (r: Option<nat>)
    requires p <= |s|
    ensures r.Some? ==> p + 3 <= r.value <= |s| && s[p] == '{'
  {
    if p < |s| && s[p] == '{' then TokenEnd(s, p) else None
  }

  /** The end of a token whose `{` is at `p`, if its run of token characters
      is non-empty and closed by `}`. */
  function TokenEnd(s: string, p: nat): (r: Option<nat>)
    requires p < |s|
    ensures r.Some? ==> p + 3 <= r.value <= |s|
  {
    var j := RunEnd(s, p + 1);
    if j > p + 1 && j < |s| && s[j] == '}' then Some(j + 1) else None
  }

  /** `MatchAt` is the regular expression: it matches exactly where a token
      starts, and its end is the only one a token starting there can have. */
  lemma MatchAtIsRegex(s: string, p: nat, e: nat)
    requires p < e <= |s|
    ensures IsToken(s[p..e]) <==> MatchAt(s, p) == Some(e)
  {
    var t := s[p..e];
    if p < |s| && s[p] == '{' {
      var j := RunEnd(s, p + 1);
      forall k | p + 1 <= k < j
        ensures IsTokenChar(s[k])
      {
        RunEndCovers(s, p + 1, k);
      }
      assert t[e - p - 1] == s[e - 1];
      if p + 1 <= e - 1 < j {
        RunEndCovers(s, p + 1, e - 1);
      } else if e - 1 > j {
        assert t[j - p] == s[j];
      }
    } else {
      assert t[0] == s[p];
    }
  }

  /** `regex.exec` with `lastIndex` at `from`: the leftmost match starting at
      or after `from`. */
  function FindMatch(s: string, from: nat): (r: Option<nat>)
    requires from <= |s|
    ensures r.Some? ==> from <= r.value <= |s| && MatchAt(s, r.value).Some?
    decreases |s| - from
  {
    if MatchAt(s, from).Some? then Some(from)
    else if from == |s| then None
    else FindMatch(s, from + 1)
  }

  /** No match starts between `from` and the match `FindMatch` reports, nor
      anywhere after `from` when it reports none. */
  lemma {:induction false} FindMatchIsLeftmost(s: string, from: nat, q: nat)
    requires from <= q <= |s|
    requires FindMatch(s, from).None? || q < FindMatch(s, from).value
    ensures MatchAt(s, q).None?
    decreases q - from
  {
    if q > from {
      FindMatchIsLeftmost(s, from + 1, q);
    }
  }

  function Shift(o: Option<nat>, d: nat): Option<nat> {
    if o.Some? then Some(o.value + d) else None
  }

  lemma {:induction false} RunEndShift(a: string, b: string, i: nat)
    requires i <= |b|
    ensures RunEnd(a + b, |a| + i) == |a| + RunEnd(b, i)
    decreases |b| - i
  {
    if i < |b| {
      assert (a + b)[|a| + i] == b[i];
      if IsTokenChar(b[i]) {
        RunEndShift(a, b, i + 1);
      }
    }
  }

  /** A match found after a prefix depends only on the text after it. */
  lemma MatchAtShift(a: string, b: string, k: nat)
    requires k <= |b|
    ensures MatchAt(a + b, |a| + k) == Shift(MatchAt(b, k), |a|)
  {
    if k < |b| {
      assert (a + b)[|a| + k] == b[k];
      if b[k] == '{' {
        RunEndShift(a, b, k + 1);
        var j := RunEnd(b, k + 1);
        if j < |b| {
          assert (a + b)[|a| + j] == b[j];
        }
      }
    }
  }

  lemma {:induction false} FindMatchShift(a: string, b: string, k: nat)
    requires k <= |b|
    ensures FindMatch(a + b, |a| + k) == Shift(FindMatch(b, k), |a|)
    decreases |b| - k
  {
    MatchAtShift(a, b, k);
    if MatchAt(b, k).None? && k < |b| {
      FindMatchShift(a, b, k + 1);
    }
  }

  // ---------------------------------------------------------------------
  // getReplacementForKeyword

  /** `s.split(',')[0]`. */
  function BeforeComma(s: string): (r: string)
    ensures ',' !in r && StartsWith(s, r)
    ensures |r| < |s| ==> s[|r|] == ','
    ensures ',' !in s ==> r == s
  {
    if s == [] || s[0] == ',' then [] else [s[0]] + BeforeComma(s[1..])
  }

  /** The position of the first comma. */
  function FirstComma(s: string): (i: nat)
    requires ',' in s
    ensures i < |s| && s[i] == ','
    ensures forall j :: 0 <= j < i ==> s[j] != ','
  {
    if s[0] == ',' then 0 else 1 + FirstComma(s[1..])
  }

  /** `s.split(',')[1]`, for a string holding at least one comma: the text
      from just after the first comma up to the next comma or the end. */
  function SecondField(s: string): (r: string)
    requires ',' in s
    ensures ',' !in r
    ensures exists i :: 0 <= i < |s| && s[i] == ',' && (forall j :: 0 <= j < i ==> s[j] != ',')
                        && r == BeforeComma(s[i + 1..])
  {
    var i := FirstComma(s);
    BeforeComma(s[i + 1..])
  }

  /** The text of `{index…}`: the input's position plus one, zero-padded to
      `min(MaxPad, N)` characters when the keyword carries a numeric `,N`. */
  function IndexText(index: int, keyword: string): string {
    var idx := IntToString(index + 1);
    if ',' in keyword then
      var padLength := ParseInt(SecondField(keyword));
      if padLength.Some? then PadStart(idx, Min(MaxPad as real, padLength.value as real).Floor, '0') else idx
    else idx
  }

  predicate IsKnownKeyword(keyword: string) {
    keyword == FilenameKeyword || StartsWith(keyword, IndexKeyword)
    || keyword == WidthKeyword || keyword == HeightKeyword
  }

  /** `getReplacementForKeyword`: the text that replaces the token `full`
      whose inner text is `keyword`. */
  function ReplacementForKeyword(keyword: string, image: OutputImage, platform: Platform, full: string): string {
    if keyword == FilenameKeyword then platform.fileNameWithoutExtension(image.inputImage.filename)
    else if StartsWith(keyword, IndexKeyword) then IndexText(image.inputImage.index, keyword)
    else if keyword == WidthKeyword then NatToString(image.width)
    else if keyword == HeightKeyword then NatToString(image.height)
    else full
  }

  /** Each keyword's replacement; an unknown keyword leaves its token as it
      was. */
  lemma KeywordReplacements(keyword: string, image: OutputImage, platform: Platform, full: string)
    ensures var r := ReplacementForKeyword(keyword, image, platform, full);
            && (keyword == "filename" ==> r == platform.fileNameWithoutExtension(image.inputImage.filename))
            && (keyword == "width" ==> AllDigits(r) && ParseDigits(r) == image.width)
            && (keyword == "height" ==> AllDigits(r) && ParseDigits(r) == image.height)
            && (keyword != "filename" && StartsWith(keyword, "index") ==> r == IndexText(image.inputImage.index, keyword))
            && (!IsKnownKeyword(keyword) ==> r == full)
  {
    assert WidthKeyword[0] != IndexKeyword[0] && HeightKeyword[0] != IndexKeyword[0];
    ParseDigitsOfNatToString(image.width);
    ParseDigitsOfNatToString(image.height);
  }

  /** `{index}` and `{index…}` without a comma give the position plus one,
      unpadded; so does a `,N` whose N is not a number. */
  lemma IndexUnpadded(index: int, keyword: string)
    requires ',' !in keyword || ParseInt(SecondField(keyword)).None?
    ensures IndexText(index, keyword) == IntToString(index + 1)
  {
  }

  /** With a numeric `,N` the position plus one keeps all its digits, gains
      leading zeros up to `min(5, N)` characters, and nothing else. */
  lemma IndexPadded(index: int, keyword: string, n: int)
    requires ',' in keyword && ParseInt(SecondField(keyword)) == Some(n)
    ensures var r := IndexText(index, keyword); var idx := IntToString(index + 1);
            && |r| == (if Min(5.0, n as real).Floor > |idx| then Min(5.0, n as real).Floor else |idx|)
            && r[|r| - |idx|..] == idx
            && forall i :: 0 <= i < |r| - |idx| ==> r[i] == '0'
  {
  }

  /** The padding never exceeds five characters for a position below 10000,
      however large N is. */
  lemma IndexPaddingCapped(index: int, keyword: string)
    requires 0 <= index + 1 < 10000
    ensures |IndexText(index, keyword)| <= MaxPad
  {
    NatDigitsBelow10000(index + 1);
  }

  lemma NatDigitsBelow10000(n: nat)
    requires n < 10000
    ensures |NatToString(n)| <= 4
  {
    if n >= 10 {
      NatDigitsBelow10000(n / 10);
      if n / 10 >= 10 {
        NatDigitsBelow10000(n / 100);
        if n / 100 >= 10 {
          assert |NatToString(n / 1000)| == 1;
        }
      }
    }
  }

  // ---------------------------------------------------------------------
  // handlePattern

  /** The keyword of a token: its text with the braces stripped. */
  function Keyword(token: string): string
    requires |token| >= 2
  {
    token[1..|token| - 1]
  }

  /** The text that replaces a whole token: its keyword's replacement. */
  function TokenReplacement(token: string, image: OutputImage, platform: Platform): string {
    if |token| >= 2 then ReplacementForKeyword(Keyword(token), image, platform, token) else token
  }

  /** The token replacement used for one output image. */
  function Replacer(image: OutputImage, platform: Platform): string -> string {
    token => TokenReplacement(token, image, platform)
  }

  /** Reference meaning of a pattern, for any replacement of whole tokens:
      every token of the ORIGINAL text, left to right, is replaced, and the
      text a replacement brings in is never scanned again. */
  function Expand(s: string, replace: string -> string): string
    decreases |s|
  {
    var m := FindMatch(s, 0);
    if m.None? then s
    else
      var p := m.value;
      var e := MatchAt(s, p).value;
      s[..p] + replace(s[p..e]) + Expand(s[e..], replace)
  }

  /** Text without any `{` is its own expansion. */
  lemma ExpandWithoutBraces(s: string, replace: string -> string)
    requires '{' !in s
    ensures Expand(s, replace) == s
  {
  }

  /** One step of the expansion: the text before the first token, its
      replacement, then the expansion of the text after it. */
  lemma ExpandStep(s: string, p: nat, e: nat, replace: string -> string)
    requires p <= |s| && FindMatch(s, 0) == Some(p) && MatchAt(s, p) == Some(e)
    ensures Expand(s, replace)
            == s[..p] + replace(s[p..e]) + Expand(s[e..], replace)
  {
  }

  lemma ExpandNoMatch(s: string, replace: string -> string)
    requires FindMatch(s, 0).None?
    ensures Expand(s, replace) == s
  {
  }

  /** The leftmost match from `from` is also the leftmost from `to` when no
      match starts in between. */
  lemma {:induction false} FindMatchSkip(s: string, from: nat, to: nat)
    requires from <= to <= |s|
    requires forall q :: from <= q < to ==> MatchAt(s, q).None?
    ensures FindMatch(s, from) == FindMatch(s, to)
    decreases |s| - from
  {
    if from < to {
      FindMatchSkip(s, from + 1, to);
    }
  }

  /** What the loop of `handlePattern` still produces from the text `s`
      with the regular expression's `lastIndex` at `lastIndex`. */
  ghost function Scan(s: string, lastIndex: nat, replace: string -> string): string
    requires lastIndex <= |s|
    decreases |s| - lastIndex
  {
    var m := FindMatch(s, lastIndex);
    if m.None? then s
    else
      var p := m.value;
      var e := MatchAt(s, p).value;
      var replacement := replace(s[p..e]);
      Scan(s[..p] + replacement + s[e..], p + |replacement|, replace)
  }

  /** One round of the loop: the token at `p..e` is replaced and the scan
      resumes just after the replacement. */
  lemma ScanStep(s: string, lastIndex: nat, p: nat, e: nat, replacement: string, next: string,
                 replace: string -> string)
    requires lastIndex <= |s| && FindMatch(s, lastIndex) == Some(p) && MatchAt(s, p) == Some(e)
    requires replacement == replace(s[p..e])
    requires next == s[..p] + replacement + s[e..]
    ensures p + |replacement| <= |next|
    ensures Scan(s, lastIndex, replace) == Scan(next, p + |replacement|, replace)
  {
    assert Scan(s, lastIndex, replace) == Scan(s[..p] + replacement + s[e..], p + |replacement|, replace);
  }

  /** The search from `k` sees only the text from `k` on. */
  lemma SuffixMatch(s: string, k: nat)
    requires k <= |s|
    ensures FindMatch(s, k) == Shift(FindMatch(s[k..], 0), k)
  {
    assert s[..k] + s[k..] == s;
    FindMatchShift(s[..k], s[k..], 0);
  }

  lemma SuffixTokenEnd(s: string, k: nat, p: nat)
    requires k <= p <= |s|
    ensures MatchAt(s, p) == Shift(MatchAt(s[k..], p - k), k)
  {
    assert s[..k] + s[k..] == s;
    MatchAtShift(s[..k], s[k..], p - k);
  }

  /** Scanning from `k` leaves the text before `k` alone and expands the
      rest once: the cursor never goes back into replaced text. */
  lemma {:induction false} ScanIsExpand(s: string, k: nat, replace: string -> string)
    requires k <= |s|
    ensures Scan(s, k, replace) == s[..k] + Expand(s[k..], replace)
    decreases |s| - k
  {
    var m := FindMatch(s, k);
    if m.None? {
      ScanWithoutMatch(s, k, replace);
    } else {
      var p := m.value;
      var e := MatchAt(s, p).value;
      var replacement := replace(s[p..e]);
      var next := s[..p] + replacement + s[e..];
      ScanIsExpand(next, p + |replacement|, replace);
      ScanAfterMatch(s, k, p, e, replacement, next, replace);
    }
  }

  /** The base case of `ScanIsExpand`. */
  lemma ScanWithoutMatch(s: string, k: nat, replace: string -> string)
    requires k <= |s| && FindMatch(s, k).None?
    ensures Scan(s, k, replace) == s[..k] + Expand(s[k..], replace)
  {
    SuffixMatch(s, k);
    ExpandNoMatch(s[k..], replace);
    assert s[..k] + s[k..] == s;
  }

  /** The inductive case of `ScanIsExpand`, given the claim for the text
      after one replacement. */
  lemma ScanAfterMatch(s: string, k: nat, p: nat, e: nat, replacement: string, next: string,
                       replace: string -> string)
    requires k <= |s| && FindMatch(s, k) == Some(p) && MatchAt(s, p) == Some(e)
    requires replacement == replace(s[p..e]) && next == s[..p] + replacement + s[e..]
    requires p + |replacement| <= |next|
    requires Scan(next, p + |replacement|, replace)
             == next[..p + |replacement|] + Expand(next[p + |replacement|..], replace)
    ensures Scan(s, k, replace) == s[..k] + Expand(s[k..], replace)
  {
    ScanStep(s, k, p, e, replacement, next, replace);
    ScanIsExpandStep(s, k, p, e, replacement, next, replace);
  }

  /** The inductive step of `ScanIsExpand`: what is left after one
      replacement is the expansion after the token. */
  lemma ScanIsExpandStep(s: string, k: nat, p: nat, e: nat, replacement: string, next: string,
                         replace: string -> string)
    requires k <= p && p <= |s| && FindMatch(s, k) == Some(p) && MatchAt(s, p) == Some(e)
    requires replacement == replace(s[p..e]) && next == s[..p] + replacement + s[e..]
    ensures p + |replacement| <= |next|
    ensures next[..p + |replacement|] + Expand(next[p + |replacement|..], replace)
            == s[..k] + Expand(s[k..], replace)
  {
    SpliceHalves(s, p, e, replacement, next);
    ExpandFrom(s, k, p, e, replace);
    Associative(s[..k], s[k..p], replacement, Expand(s[e..], replace));
    assert s[..k] + s[k..p] == s[..p];
  }

  /** The expansion of the text from `k`, when its first token is at `p..e`. */
  lemma ExpandFrom(s: string, k: nat, p: nat, e: nat, replace: string -> string)
    requires k <= p && p <= |s| && FindMatch(s, k) == Some(p) && MatchAt(s, p) == Some(e)
    ensures Expand(s[k..], replace) == s[k..p] + replace(s[p..e]) + Expand(s[e..], replace)
  {
    FirstTokenOfSuffix(s, k, p, e);
    ExpandStep(s[k..], p - k, e - k, replace);
    SuffixSlices(s, k, p, e);
  }

  lemma FirstTokenOfSuffix(s: string, k: nat, p: nat, e: nat)
    requires k <= p && p <= |s| && FindMatch(s, k) == Some(p) && MatchAt(s, p) == Some(e)
    ensures FindMatch(s[k..], 0) == Some(p - k) && MatchAt(s[k..], p - k) == Some(e - k)
  {
    SuffixMatch(s, k);
    SuffixTokenEnd(s, k, p);
  }

  /** The text before the resumed cursor and after it, once the token at
      `p..e` is replaced. */
  lemma SpliceHalves(s: string, p: nat, e: nat, replacement: string, next: string)
    requires p <= e <= |s| && next == s[..p] + replacement + s[e..]
    ensures next[..p + |replacement|] == s[..p] + replacement
    ensures next[p + |replacement|..] == s[e..]
  {
  }

  lemma SuffixSlices(s: string, k: nat, p: nat, e: nat)
    requires k <= p <= e <= |s|
    ensures s[k..][..p - k] == s[k..p]
    ensures s[k..][p - k..e - k] == s[p..e]
    ensures s[k..][e - k..] == s[e..]
  {
  }

  /** Regrouping a four-part concatenation; stated apart so that the
      step lemma above does not have to search for it among its other facts. */
  lemma Associative(a: string, b: string, c: string, d: string)
    ensures a + (b + c + d) == (a + b) + c + d
  {
  }

  /** The loop's invariant survives one round. */
  lemma ScanKeeps(s: string, lastIndex: nat, p: nat, e: nat, replacement: string, next: string, nextIndex: nat,
                  replace: string -> string, goal: string)
    requires lastIndex <= |s| && FindMatch(s, lastIndex) == Some(p) && MatchAt(s, p) == Some(e)
    requires replacement == replace(s[p..e]) && next == s[..p] + replacement + s[e..]
    requires nextIndex == p + |replacement|
    requires Scan(s, lastIndex, replace) == goal
    ensures nextIndex <= |next|
    ensures Scan(next, nextIndex, replace) == goal
  {
    ScanStep(s, lastIndex, p, e, replacement, next, replace);
  }

  lemma ScanFromStart(s: string, replace: string -> string)
    ensures Scan(s, 0, replace) == Expand(s, replace)
  {
    ScanIsExpand(s, 0, replace);
    assert s[0..] == s;
    assert s[..0] + Expand(s, replace) == Expand(s, replace);
  }

  /** `handlePattern`: the input's extension is appended to the pattern, then
      tokens are found left to right with the scan resuming just after each
      inserted replacement. The result is the reference expansion. */
  method HandlePattern(pattern: string, image: OutputImage, platform: Platform) returns (finalFilename: string)
    ensures finalFilename == Expand(pattern + "." + platform.fileExtension(image.inputImage.filename), Replacer(image, platform))
  {
    finalFilename := pattern + "." + platform.fileExtension(image.inputImage.filename);
    ghost var original := finalFilename;
    ghost var replace := Replacer(image, platform);
    ScanFromStart(original, replace);
    var lastIndex: nat := 0;
    var found := FindMatch(finalFilename, lastIndex);
    while found.Some?
      invariant lastIndex <= |finalFilename|
      invariant Scan(finalFilename, lastIndex, replace) == Expand(original, replace)
      invariant found == FindMatch(finalFilename, lastIndex)
      decreases |finalFilename| - lastIndex
    {
      var startIndex := found.value;
      var endIndex := MatchAt(finalFilename, startIndex).value;
      var full := finalFilename[startIndex..endIndex];
      var keyword := Keyword(full);
      var replacement := ReplacementForKeyword(keyword, image, platform, full);
      assert replacement == replace(full);
      ghost var previous, previousIndex := finalFilename, lastIndex;
      finalFilename := finalFilename[..startIndex] + replacement + finalFilename[endIndex..];
      lastIndex := startIndex + |replacement|;
      ScanKeeps(previous, previousIndex, startIndex, endIndex, replacement, finalFilename, lastIndex,
                replace, Expand(original, replace));
      found := FindMatch(finalFilename, lastIndex);
    }
  }

  // ---------------------------------------------------------------------
  // handleNoPattern and the choice between the two

  /** `handleNoPattern`: prefix, the name before its last `.`, suffix, then
      the name from its last `.` onward. */
  function HandleNoPattern(prefix: string, suffix: string, filename: string): string {
    var period := LastIndexOf(filename, '.');
    var newFilename := Substring(filename, 0, period);
    var extension := SubstringFrom(filename, period);
    prefix + newFilename + suffix + extension
  }

  /** The fallback splits the name at its last `.`: the stem goes between
      prefix and suffix and the extension, dot included, stays at the end. */
  lemma NoPatternSplitsAtLastDot(prefix: string, suffix: string, filename: string)
    requires '.' in filename
    ensures exists k :: 0 <= k < |filename| && filename[k] == '.'
                        && (forall j :: k < j < |filename| ==> filename[j] != '.')
                        && HandleNoPattern(prefix, suffix, filename) == prefix + filename[..k] + suffix + filename[k..]
  {
    var k := LastIndexOf(filename, '.');
  }

  /** A name without a `.` is kept whole, after both prefix and suffix. */
  lemma NoPatternWithoutDot(prefix: string, suffix: string, filename: string)
    requires '.' !in filename
    ensures HandleNoPattern(prefix, suffix, filename) == prefix + suffix + filename
  {
  }

  /** `if (pattern)`: a pattern is used when it is present and not empty. */
  predicate UsesPattern(pattern: Option<string>) {
    pattern.Some? && pattern.value != ""
  }

  /** The filename an output image gets from its variant. */
  function VariantFilename(variant: Variant, image: OutputImage, platform: Platform): (name: string)
    ensures UsesPattern(variant.settings.pattern) ==>
              name == Expand(variant.settings.pattern.value + "." + platform.fileExtension(image.inputImage.filename),
                             Replacer(image, platform))
    ensures !UsesPattern(variant.settings.pattern) ==>
              name == HandleNoPattern(variant.settings.prefix, variant.settings.suffix, image.inputImage.filename)
  {
    var pattern := variant.settings.pattern;
    if UsesPattern(pattern) then
      Expand(pattern.value + "." + platform.fileExtension(image.inputImage.filename), Replacer(image, platform))
    else
      HandleNoPattern(variant.settings.prefix, variant.settings.suffix, image.inputImage.filename)
  }

  /** `getVariantFilenameForOutputImage`: the pattern when there is one, the
      prefix/stem/suffix fallback when the pattern is absent or empty. */
  method GetVariantFilenameForOutputImage(variant: Variant, image: OutputImage, platform: Platform) returns (name: string)
    ensures name == VariantFilename(variant, image, platform)
  {
    var pattern := variant.settings.pattern;
    if pattern.Some? && pattern.value != "" {
      name := HandlePattern(pattern.value, image, platform);
    } else {
      name := HandleNoPattern(variant.settings.prefix, variant.settings.suffix, image.inputImage.filename);
    }
  }

  // ---------------------------------------------------------------------
  // Worked patterns

  /** With a space after the comma the text is not a token, so it is left as
      written: `img_{index, 3}` keeps its braces whatever the replacement. */
  lemma SpacedIndexIsVerbatim(replace: string -> string)
    ensures Expand("img_{index, 3}.png", replace) == "img_{index, 3}.png"
  {
    var s := "img_{index, 3}.png";
    forall q | 0 <= q <= |s|
      ensures MatchAt(s, q).None?
    {
      if q == 4 {
        assert RunEnd(s, 5) == 11;
        assert s[11] == ' ';
      }
    }
    FindMatchSkip(s, 0, |s|);
    ExpandNoMatch(s, replace);
  }

  /** Text brought in by a replacement is not scanned again: a stem that reads
      `{width}` stays literally in the name. */
  lemma ReplacementNotRescanned(image: OutputImage, platform: Platform)
    requires platform.fileNameWithoutExtension(image.inputImage.filename) == "{width}"
    ensures Expand("{filename}.png", Replacer(image, platform)) == "{width}.png"
  {
    var s := "{filename}.png";
    assert RunEnd(s, 1) == 9;
    assert MatchAt(s, 0) == Some(10);
    ExpandStep(s, 0, 10, Replacer(image, platform));
    assert s[0..10] == "{filename}";
    assert Keyword("{filename}") == "filename";
    assert TokenReplacement("{filename}", image, platform) == "{width}";
    assert s[10..] == ".png";
    ExpandWithoutBraces(".png", Replacer(image, platform));
  }
}
