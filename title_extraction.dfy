/**
 * Title resolution for one PDF file and the batch run over a folder of them
 * (title_extraction.py). Each strategy is a function (or, for the layout scan,
 * a method) returning an optional titled result; the chain takes the first
 * success in priority order and falls back on a title made from the file name.
 *
 * The arXiv lookup and the Semantic Scholar search are oracles passed in as
 * total functions; what the PDF library reads (the metadata title, the first
 * page's blocks/lines/spans) is passed in as data.
 */
module TitleExtraction {
  import opened Wrappers
  import opened Text
  import opened Sequences

  /** The strategy that produced a title (the `source` strings of the program). */
  datatype Provenance = Arxiv | PdfMetadata | PdfText | SemanticScholar | Filename

  /** A `(title, source)` pair as the strategies return it. */
  datatype Titled = Titled(title: string, source: Provenance)

  /** `Stem(f)` is `f.replace('.pdf', '')`. */
  function Stem(filename: string): string {
    RemoveAll(filename, ".pdf")
  }

  // ---------------------------------------------------------------------------
  // 1. arXiv identifier
  // ---------------------------------------------------------------------------

  /** An arXiv identifier without version: four digits, a dot, four or five digits. */
  predicate IsArxivId(id: string) {
    (|id| == 9 || |id| == 10) && AllDigits(id[..4]) && id[4] == '.' && AllDigits(id[5..])
  }

  lemma ArxivIdHasNoVersion(id: string)
    requires IsArxivId(id)
    ensures 'v' !in id
  {
    forall k | 0 <= k < |id| ensures id[k] != 'v' {
      if k < 4 { assert id[..4][k] == id[k]; }
      else if k > 4 { assert id[5..][k - 5] == id[k]; }
    }
  }

  /** Group 1 of `re.match(r"(\d{4}\.\d{4,5})(v\d+)?", name)`, when the pattern matches. */
  function ArxivId(name: string): (r: Option<string>)
    ensures r.Some? ==> IsArxivId(r.value) && StartsWith(name, r.value) && 'v' !in r.value
    ensures r.Some? && |r.value| == 9 ==> |name| == 9 || !IsDigit(name[9])
  {
    if |name| >= 9 && IsArxivId(name[..9]) then
      if |name| >= 10 && IsDigit(name[9]) then
        var id := name[..10];
        assert id[..4] == name[..9][..4];
        assert id[5..] == name[..9][5..] + [name[9]];
        ArxivIdHasNoVersion(id);
        Some(id)
      else
        ArxivIdHasNoVersion(name[..9]);
        Some(name[..9])
    else
      None
  }

  /** Whenever the name starts with an arXiv identifier, `ArxivId` finds one. */
  lemma ArxivIdComplete(name: string, n: nat)
    requires n <= |name| && IsArxivId(name[..n])
    ensures ArxivId(name).Some?
  {
    var id := name[..n];
    assert name[..9] == id[..9];
    assert id[..9][..4] == id[..4];
    assert id[..9][5..] == id[5..9];
    assert forall k :: 0 <= k < 4 ==> id[5..9][k] == id[5..][k];
  }

  /**
   * `extract_title_from_arxiv`: the title the lookup gives for the identifier
   * at the start of the file's stem; no result when there is no identifier or
   * when the lookup fails.
   */
  function ArxivTitle(filename: string, lookup: string -> Option<string>): Option<Titled> {
    match ArxivId(Stem(filename))
    case None => None
    case Some(id) =>
      match lookup(id)
      case Some(t) => Some(Titled(t, Arxiv))
      case None => None
  }

  /**
   * `id` is what the greedy `\d{4}\.\d{4,5}` matches at the start of `name`:
   * an identifier that starts `name`, with five final digits whenever `name`
   * has a digit there.
   */
  predicate LongestArxivPrefix(name: string, id: string) {
    IsArxivId(id) && StartsWith(name, id) && (|id| == 9 && |name| > 9 ==> !IsDigit(name[9]))
  }

  /** The greedy match is the identifier `ArxivId` finds. */
  lemma ArxivIdLongest(name: string, id: string)
    requires LongestArxivPrefix(name, id)
    ensures ArxivId(name) == Some(id)
  {
    assert name[..|id|] == id;
    ArxivIdComplete(name, |id|);
    var v := ArxivId(name).value;
    assert name[..|v|] == v;
  }

  /**
   * The arXiv strategy in terms of the file name: no title when the stem does
   * not start with an identifier; otherwise a title exactly when the lookup
   * of the greedily matched identifier succeeds, and then it is the
   * looked-up title with provenance `arxiv`.
   */
  lemma ArxivTitleSpec(filename: string, lookup: string -> Option<string>)
    ensures (forall id :: !LongestArxivPrefix(Stem(filename), id)) ==> ArxivTitle(filename, lookup).None?
    ensures forall id :: LongestArxivPrefix(Stem(filename), id) ==>
      (ArxivTitle(filename, lookup).Some? <==> lookup(id).Some?) &&
      (lookup(id).Some? ==> ArxivTitle(filename, lookup).value == Titled(lookup(id).value, Arxiv))
  {
    var stem := Stem(filename);
    if ArxivId(stem).Some? {
      assert LongestArxivPrefix(stem, ArxivId(stem).value);
    }
    forall id | LongestArxivPrefix(stem, id)
      ensures (ArxivTitle(filename, lookup).Some? <==> lookup(id).Some?) &&
        (lookup(id).Some? ==> ArxivTitle(filename, lookup).value == Titled(lookup(id).value, Arxiv))
    {
      ArxivIdLongest(stem, id);
    }
  }

  // ---------------------------------------------------------------------------
  // 2. PDF metadata
  // ---------------------------------------------------------------------------

  /**
   * `extract_title_from_pdf_metadata`, given the metadata's `title` entry
   * (`None` when the file cannot be opened or has no such entry).
   */
  function MetadataTitle(metaTitle: Option<string>): (r: Option<Titled>)
    ensures r.Some? <==> metaTitle.Some? && 10 < |Strip(metaTitle.value)| < 200
    ensures r.Some? ==> r.value == Titled(Strip(metaTitle.value), PdfMetadata) && r.value.title != []
  {
    match metaTitle
    case None => None
    case Some(t) =>
      if t == [] then None
      else
        var title := Strip(t);
        if 10 < |title| < 200 then Some(Titled(title, PdfMetadata)) else None
  }

  // ---------------------------------------------------------------------------
  // 3. First-page layout scan
  // ---------------------------------------------------------------------------

  /** A text span with its font size and the y coordinate of its origin (smaller is higher). */
  datatype Span = Span(text: string, size: int, y: int)
  datatype Line = Line(spans: seq<Span>)
  /** A block of the page; `lines` is `None` for a block without a "lines" entry (an image). */
  datatype Block = Block(lines: Option<seq<Line>>)
  datatype Candidate = Candidate(text: string, size: int, y: int)

  /** Only the first blocks of the page are scanned. */
  const MaxBlocks: nat := 15

  /** The filter a stripped span text must pass to be a title candidate. */
  predicate IsTitleLike(text: string) {
    15 < |text| < 200 &&
    !AllDigits(text) &&
    !StartsWith(text, "http") &&
    !StartsWith(Lower(text), "abstract")
  }

  predicate Qualifies(s: Span) {
    IsTitleLike(Strip(s.text))
  }

  function CandidateOf(s: Span): Candidate {
    Candidate(Strip(s.text), s.size, s.y)
  }

  /** What one span adds to the candidates: itself, stripped, when it qualifies. */
  function SpanCandidate(s: Span): seq<Candidate> {
    if Qualifies(s) then [CandidateOf(s)] else []
  }

  /** What one line adds: its qualifying spans, in order. */
  function LineCandidates(line: Line): seq<Candidate> {
    Gather(line.spans, SpanCandidate)
  }

  /** What one block adds: the candidates of its lines, or nothing for a block without lines. */
  function BlockCandidates(block: Block): seq<Candidate> {
    match block.lines
    case None => []
    case Some(lines) => Gather(lines, LineCandidates)
  }

  /** The candidates of the page, in page order: the qualifying spans of `blocks[:15]`. */
  function Candidates(blocks: seq<Block>): seq<Candidate> {
    Gather(blocks[..Min(MaxBlocks, |blocks|)], BlockCandidates)
  }

  /** `a` comes before `b` under the sort key `(-size, y_position)`. */
  predicate Before(a: Candidate, b: Candidate) {
    a.size > b.size || (a.size == b.size && a.y < b.y)
  }

  /**
   * The index of the first candidate that no other candidate comes before:
   * the element a stable sort by `(-size, y_position)` puts at index 0.
   */
  function FirstBest(cs: seq<Candidate>): (i: nat)
    requires cs != []
    ensures i < |cs|
    ensures forall j :: 0 <= j < |cs| ==> cs[j].size <= cs[i].size
    ensures forall j :: 0 <= j < |cs| && cs[j].size == cs[i].size ==> cs[i].y <= cs[j].y
    ensures forall j :: 0 <= j < i ==> Before(cs[i], cs[j])
  {
    if |cs| == 1 then 0
    else
      var j := 1 + FirstBest(cs[1..]);
      assert forall k :: 1 <= k < |cs| ==> cs[k] == cs[1..][k - 1];
      if Before(cs[j], cs[0]) then j else 0
  }

  /** `extract_title_from_pdf_text`, stated on the spans the PDF library reports. */
  function TextTitle(blocks: seq<Block>): Option<Titled> {
    var cs := Candidates(blocks);
    if cs == [] then None
    else Some(Titled(Strip(ReplaceChar(cs[FirstBest(cs)].text, '\n', ' ')), PdfText))
  }

  /** The innermost loop of `extract_title_from_pdf_text`: the qualifying spans of one line. */
  method CollectFromLine(line: Line) returns (found: seq<Candidate>)
    ensures found == LineCandidates(line)
  {
    var spans := line.spans;
    found := [];
    for k := 0 to |spans|
      invariant found == Gather(spans[..k], SpanCandidate)
    {
      assert spans[..k + 1][..k] == spans[..k];
      var text := Strip(spans[k].text);
      if IsTitleLike(text) {
        found := found + [Candidate(text, spans[k].size, spans[k].y)];
      }
    }
    assert spans[..|spans|] == spans;
  }

  /** The middle loop: the candidates of the lines of one block, in order. */
  method CollectFromLines(lines: seq<Line>) returns (found: seq<Candidate>)
    ensures found == Gather(lines, LineCandidates)
  {
    found := [];
    for l := 0 to |lines|
      invariant found == Gather(lines[..l], LineCandidates)
    {
      assert lines[..l + 1][..l] == lines[..l];
      var fromLine := CollectFromLine(lines[l]);
      found := found + fromLine;
    }
    assert lines[..|lines|] == lines;
  }

  /**
   * The outer loop of `extract_title_from_pdf_text`: the candidates of the
   * first 15 blocks, skipping the blocks without lines.
   */
  method CollectCandidates(blocks: seq<Block>) returns (candidates: seq<Candidate>)
    ensures candidates == Candidates(blocks)
  {
    var first := blocks[..Min(MaxBlocks, |blocks|)];
    candidates := [];
    for b := 0 to |first|
      invariant candidates == Gather(first[..b], BlockCandidates)
    {
      assert first[..b + 1][..b] == first[..b];
      if first[b].lines.Some? {
        var fromBlock := CollectFromLines(first[b].lines.value);
        candidates := candidates + fromBlock;
      }
    }
    assert first[..|first|] == first;
  }

  /**
   * `extract_title_from_pdf_text` as the program runs it: collect the
   * candidates, then take the one the sort by `(-size, y_position)` puts first.
   */
  method ExtractTextTitle(blocks: seq<Block>) returns (r: Option<Titled>)
    ensures r == TextTitle(blocks)
  {
    var candidates := CollectCandidates(blocks);
    if candidates == [] {
      return None;
    }
    var best := candidates[FirstBest(candidates)];
    r := Some(Titled(Strip(ReplaceChar(best.text, '\n', ' ')), PdfText));
  }

  /** The span `s` qualifies and `c` is the candidate it gives. */
  predicate Yields(s: Span, c: Candidate) {
    Qualifies(s) && c == CandidateOf(s)
  }

  /** Span `k` of line `l` of block `b` exists, lies in the scanned blocks and yields `c`. */
  predicate PageYields(blocks: seq<Block>, b: int, l: int, k: int, c: Candidate) {
    0 <= b < |blocks| && b < MaxBlocks && blocks[b].lines.Some? &&
    0 <= l < |blocks[b].lines.value| &&
    0 <= k < |blocks[b].lines.value[l].spans| &&
    Yields(blocks[b].lines.value[l].spans[k], c)
  }

  /**
   * A candidate is exactly a qualifying span (stripped text: 15 < length < 200,
   * not all digits, no `http` or `abstract` prefix) of one of the first 15
   * blocks that have lines.
   */
  lemma CandidatesExact(blocks: seq<Block>, c: Candidate)
    ensures c in Candidates(blocks) <==> exists b, l, k :: PageYields(blocks, b, l, k, c)
  {
    if c in Candidates(blocks) {
      var b, l, k := CandidateSource(blocks, c);
    }
    if exists b, l, k :: PageYields(blocks, b, l, k, c) {
      var b, l, k :| PageYields(blocks, b, l, k, c);
      CandidateOfSpan(blocks, b, l, k, c);
    }
  }

  /** The span a candidate came from. */
  lemma CandidateSource(blocks: seq<Block>, c: Candidate) returns (b: int, l: int, k: int)
    requires c in Candidates(blocks)
    ensures PageYields(blocks, b, l, k, c)
  {
    var first := blocks[..Min(MaxBlocks, |blocks|)];
    b := GatherWitness(first, BlockCandidates, c);
    assert first[b] == blocks[b];
    var lines := blocks[b].lines.value;
    l := GatherWitness(lines, LineCandidates, c);
    k := GatherWitness(lines[l].spans, SpanCandidate, c);
  }

  /** A qualifying span of a scanned block yields a candidate. */
  lemma CandidateOfSpan(blocks: seq<Block>, b: int, l: int, k: int, c: Candidate)
    requires PageYields(blocks, b, l, k, c)
    ensures c in Candidates(blocks)
  {
    var first := blocks[..Min(MaxBlocks, |blocks|)];
    var lines := blocks[b].lines.value;
    GatherMember(lines[l].spans, SpanCandidate, k, c);
    GatherMember(lines, LineCandidates, l, c);
    assert first[b] == blocks[b];
    GatherMember(first, BlockCandidates, b, c);
  }

  /** A text that starts with a non-whitespace character keeps a non-empty title after newline replacement and stripping. */
  lemma CleanedTextNonEmpty(t: string)
    requires t != [] && !IsSpace(t[0])
    ensures Strip(ReplaceChar(t, '\n', ' ')) != []
  {
    StripNonEmpty(ReplaceChar(t, '\n', ' '), 0);
  }

  /**
   * The layout scan yields a title iff some span qualifies; the title is the
   * text of a candidate with the largest font size and, among those, the
   * smallest y position (the first such in page order), with newlines turned
   * into spaces and stripped; it is never empty.
   */
  lemma {:induction false} TextTitleSpec(blocks: seq<Block>)
    ensures TextTitle(blocks).None? <==> Candidates(blocks) == []
    ensures TextTitle(blocks).Some? ==>
      var cs := Candidates(blocks);
      exists i :: 0 <= i < |cs| &&
        TextTitle(blocks).value == Titled(Strip(ReplaceChar(cs[i].text, '\n', ' ')), PdfText) &&
        (forall j :: 0 <= j < |cs| ==> cs[j].size <= cs[i].size) &&
        (forall j :: 0 <= j < |cs| && cs[j].size == cs[i].size ==> cs[i].y <= cs[j].y) &&
        (forall j :: 0 <= j < i ==> Before(cs[i], cs[j]))
    ensures TextTitle(blocks).Some? ==> TextTitle(blocks).value.title != []
  {
    var cs := Candidates(blocks);
    if cs != [] {
      var i := FirstBest(cs);
      CandidatesExact(blocks, cs[i]);
      var b, l, k :| PageYields(blocks, b, l, k, cs[i]);
      StripSpec(blocks[b].lines.value[l].spans[k].text);
      CleanedTextNonEmpty(cs[i].text);
    }
  }

  // ---------------------------------------------------------------------------
  // 5. File name fallback
  // ---------------------------------------------------------------------------

  /** The number of leading ASCII digits of `s`. */
  function DigitRun(s: string): (n: nat)
    ensures n <= |s|
    ensures forall k :: 0 <= k < n ==> IsDigit(s[k])
    ensures n < |s| ==> !IsDigit(s[n])
  {
    if s != [] && IsDigit(s[0]) then 1 + DigitRun(s[1..]) else 0
  }

  /** `re.sub(r'^\d+_', '', name)` */
  function StripNumberPrefix(name: string): (r: string)
    ensures |r| <= |name|
  {
    var n := DigitRun(name);
    if 1 <= n < |name| && name[n] == '_' then name[n + 1..] else name
  }

  /** Length of the `v\d+` match at the start of `s`, or 0. */
  function VersionLength(s: string): (n: nat)
    ensures n <= |s|
  {
    if |s| >= 2 && s[0] == 'v' && IsDigit(s[1]) then 1 + DigitRun(s[1..]) else 0
  }

  /** `re.sub(r'^\d{4}\.\d{4,5}(v\d+)?', '', name)` */
  function StripArxivPrefix(name: string): (r: string)
    ensures |r| <= |name|
  {
    match ArxivId(name)
    case None => name
    case Some(id) => name[|id|..][VersionLength(name[|id|..])..]
  }

  /** The digit run of digits followed by a non-digit, or by nothing, is all of them. */
  lemma {:induction false} DigitRunOf(digits: string, rest: string)
    requires forall k :: 0 <= k < |digits| ==> IsDigit(digits[k])
    requires rest == [] || !IsDigit(rest[0])
    ensures DigitRun(digits + rest) == |digits|
  {
    if digits != [] {
      assert (digits + rest)[1..] == digits[1..] + rest;
      DigitRunOf(digits[1..], rest);
    } else {
      assert digits + rest == rest;
    }
  }

  /** A leading run of digits and its underscore are removed, and nothing else. */
  lemma StripNumberPrefixCuts(digits: string, rest: string)
    requires AllDigits(digits)
    ensures StripNumberPrefix(digits + "_" + rest) == rest
  {
    var name := digits + "_" + rest;
    assert name == digits + ("_" + rest);
    DigitRunOf(digits, "_" + rest);
    assert name[|digits| + 1..] == rest;
  }

  /** A name that does not start with digits and an underscore is left as it is. */
  lemma StripNumberPrefixKeeps(name: string)
    requires forall n :: 0 < n < |name| && AllDigits(name[..n]) ==> name[n] != '_'
    ensures StripNumberPrefix(name) == name
  {
    var n := DigitRun(name);
    if 1 <= n < |name| {
      assert AllDigits(name[..n]);
    }
  }

  /** The greedy arXiv id and its version `v` + digits are removed, and nothing else. */
  lemma StripArxivPrefixVersion(id: string, digits: string, rest: string)
    requires LongestArxivPrefix(id + "v" + digits + rest, id)
    requires AllDigits(digits) && (rest == [] || !IsDigit(rest[0]))
    ensures StripArxivPrefix(id + "v" + digits + rest) == rest
  {
    var name := id + "v" + digits + rest;
    ArxivIdLongest(name, id);
    var after := name[|id|..];
    assert after == "v" + (digits + rest);
    assert after[1..] == digits + rest;
    DigitRunOf(digits, rest);
    assert after[1 + |digits|..] == rest;
  }

  /** The greedy arXiv id without a version after it is removed, and nothing else. */
  lemma StripArxivPrefixNoVersion(id: string, rest: string)
    requires LongestArxivPrefix(id + rest, id)
    requires !(|rest| >= 2 && rest[0] == 'v' && IsDigit(rest[1]))
    ensures StripArxivPrefix(id + rest) == rest
  {
    var name := id + rest;
    ArxivIdLongest(name, id);
    assert name[|id|..] == rest;
  }

  /** A name that starts with no arXiv id is left as it is. */
  lemma StripArxivPrefixKeeps(name: string)
    ensures (forall n :: 0 <= n <= |name| ==> !IsArxivId(name[..n])) ==> StripArxivPrefix(name) == name
  {
    if ArxivId(name).Some? {
      var id := ArxivId(name).value;
      assert IsArxivId(name[..|id|]);
    }
  }

  function CapitalizeAll(words: seq<string>): (r: seq<string>)
    ensures |r| == |words|
    ensures forall j :: 0 <= j < |words| ==> r[j] == Capitalize(words[j])
  {
    if words == [] then [] else [Capitalize(words[0])] + CapitalizeAll(words[1..])
  }

  /** The name left once the extension, a numeric prefix and an arXiv id are removed and `_` become spaces. */
  function CleanedName(filename: string): string {
    Strip(ReplaceChar(StripArxivPrefix(StripNumberPrefix(Stem(filename))), '_', ' '))
  }

  /** `clean_filename_as_title` */
  function CleanFilename(filename: string): (r: Titled)
    ensures r.source == Filename
  {
    var name := CleanedName(filename);
    if name != [] then Titled(Join(CapitalizeAll(Split(name)), " "), Filename)
    else Titled(Stem(filename), Filename)
  }

  /**
   * Title case: words separated by single spaces, no other whitespace, no
   * underscore, each word starting with a character that is not a lower-case
   * letter and going on with no upper-case letter.
   */
  predicate IsTitleCase(t: string) {
    t != [] && t[0] != ' ' && t[|t| - 1] != ' ' &&
    (forall i :: 0 <= i < |t| ==> t[i] != '_' && (IsSpace(t[i]) ==> t[i] == ' ')) &&
    (forall i :: 0 < i < |t| && t[i - 1] == ' ' ==> t[i] != ' ') &&
    (forall i :: 0 <= i < |t| && (i == 0 || t[i - 1] == ' ') ==> !IsLower(t[i])) &&
    (forall i :: 0 < i < |t| && t[i - 1] != ' ' ==> !IsUpper(t[i]))
  }

  /** A capitalized word holding neither whitespace nor underscore. */
  predicate IsCapitalWord(w: string) {
    w != [] && !IsLower(w[0]) &&
    (forall k :: 0 <= k < |w| ==> !IsSpace(w[k]) && w[k] != '_') &&
    (forall k :: 0 < k < |w| ==> !IsUpper(w[k]))
  }

  /**
   * `capitalize` of a word without whitespace or underscore is the same word
   * up to letter case, starting with no lower-case letter and continuing with
   * no upper-case one.
   */
  lemma CapitalizeWord(w: string)
    requires IsWord(w) && '_' !in w
    ensures IsCapitalWord(Capitalize(w))
    ensures |Capitalize(w)| == |w| && Lower(Capitalize(w)) == Lower(w)
  {
    var r := Capitalize(w);
    assert r[0] == UpperChar(w[0]);
    forall k | 0 <= k < |w| ensures Lower(r)[k] == Lower(w)[k] {
      if k > 0 { assert r[k] == LowerChar(w[k]); }
    }
    forall k | 0 <= k < |w| ensures !IsSpace(r[k]) && r[k] != '_' && (k > 0 ==> !IsUpper(r[k])) {
      assert !IsSpace(w[k]) && w[k] != '_';
      if k > 0 { assert r[k] == LowerChar(w[k]); }
    }
  }

  lemma {:induction false} JoinTitleCase(ws: seq<string>)
    requires ws != []
    requires forall j :: 0 <= j < |ws| ==> IsCapitalWord(ws[j])
    ensures IsTitleCase(Join(ws, " "))
  {
    if |ws| > 1 {
      var w := ws[0];
      var rest := Join(ws[1..], " ");
      JoinTitleCase(ws[1..]);
      var t := w + " " + rest;
      assert Join(ws, " ") == t;
      var n := |w|;
      assert IsCapitalWord(w);
      forall i | 0 <= i < |t| ensures t[i] != '_' && (IsSpace(t[i]) ==> t[i] == ' ') {
        if i > n { assert t[i] == rest[i - n - 1]; }
      }
      forall i | 0 < i < |t| && t[i - 1] == ' ' ensures t[i] != ' ' {
        if i > n + 1 { assert t[i] == rest[i - n - 1] && t[i - 1] == rest[i - n - 2]; }
      }
      forall i | 0 <= i < |t| && (i == 0 || t[i - 1] == ' ') ensures !IsLower(t[i]) {
        if i > n + 1 { assert t[i] == rest[i - n - 1] && t[i - 1] == rest[i - n - 2]; }
      }
      forall i | 0 < i < |t| && t[i - 1] != ' ' ensures !IsUpper(t[i]) {
        if i > n + 1 { assert t[i] == rest[i - n - 1] && t[i - 1] == rest[i - n - 2]; }
      }
    }
  }

  lemma NoUnderscoreAfterReplace(s: string)
    ensures '_' !in ReplaceChar(s, '_', ' ')
  {
    var r := ReplaceChar(s, '_', ' ');
    forall k | 0 <= k < |r| ensures r[k] != '_' { }
  }

  /**
   * When the cleaned name is not empty, the fallback title is title case:
   * single-space-separated capitalized words and no underscore.
   */
  lemma CleanFilenameTitleCase(filename: string)
    requires CleanedName(filename) != []
    ensures IsTitleCase(CleanFilename(filename).title)
    ensures var words, title := Split(CleanedName(filename)), CleanFilename(filename).title;
      |Split(title)| == |words| &&
      forall j :: 0 <= j < |words| ==> Lower(Split(title)[j]) == Lower(words[j])
  {
    var raw := ReplaceChar(StripArxivPrefix(StripNumberPrefix(Stem(filename))), '_', ' ');
    var name := CleanedName(filename);
    NoUnderscoreAfterReplace(StripArxivPrefix(StripNumberPrefix(Stem(filename))));
    StripKeepsAbsent(raw, '_');
    StripSpec(raw);
    var words := Split(name);
    SplitNonEmpty(name, 0);
    SplitWords(name);
    forall j | 0 <= j < |words|
      ensures IsCapitalWord(CapitalizeAll(words)[j]) && Lower(CapitalizeAll(words)[j]) == Lower(words[j])
    {
      CapitalizeWord(words[j]);
    }
    JoinTitleCase(CapitalizeAll(words));
    SplitJoin(CapitalizeAll(words));
  }

  /** The fallback title is empty exactly when the file name minus `.pdf` is empty. */
  lemma CleanFilenameNonEmpty(filename: string)
    ensures CleanFilename(filename).title != [] <==> Stem(filename) != []
  {
    if CleanedName(filename) != [] {
      CleanFilenameTitleCase(filename);
    }
  }

  /**
   * When cleanup leaves nothing, the raw stem is returned unchanged, so the
   * fallback title can contain underscores: `__.pdf` gives `__`.
   */
  lemma FilenameFallbackKeepsUnderscores()
    ensures CleanFilename("__.pdf") == Titled("__", Filename)
  {
    assert RemoveAll(".pdf", ".pdf") == [];
    assert RemoveAll("_.pdf", ".pdf") == "_";
    assert Stem("__.pdf") == "__";
    assert StripNumberPrefix("__") == "__";
    assert StripArxivPrefix("__") == "__";
    assert ReplaceChar("__", '_', ' ') == "  ";
    assert LeadingSpaces("  ") == 2;
    assert CleanedName("__.pdf") == [];
  }

  // ---------------------------------------------------------------------------
  // The strategy chain
  // ---------------------------------------------------------------------------

  /** A strategy succeeded when it returned a non-empty title (Python's `if title:`). */
  predicate Succeeded(o: Option<Titled>) {
    o.Some? && o.value.title != []
  }

  /** None of the first `i` attempts succeeded. */
  predicate NoneBefore(attempts: seq<Option<Titled>>, i: int) {
    forall j :: 0 <= j < i && j < |attempts| ==> !Succeeded(attempts[j])
  }

  /** The first successful attempt in order, or `fallback` when none succeeds. */
  function FirstSuccess(attempts: seq<Option<Titled>>, fallback: Titled): (r: Titled)
    ensures NoneBefore(attempts, |attempts|) ==> r == fallback
    ensures forall i :: 0 <= i < |attempts| && Succeeded(attempts[i]) && NoneBefore(attempts, i) ==>
      r == attempts[i].value
  {
    if attempts == [] then fallback
    else if Succeeded(attempts[0]) then attempts[0].value
    else
      var rest := attempts[1..];
      assert forall i :: 1 <= i <= |attempts| && NoneBefore(attempts, i) ==> NoneBefore(rest, i - 1);
      FirstSuccess(rest, fallback)
  }

  /**
   * The layout-scan result, replaced by the Semantic Scholar title (provenance
   * `semantic_scholar`) when the search with that text finds a non-empty title.
   */
  function Verified(text: Option<Titled>, search: string -> Option<string>): Option<Titled> {
    if !Succeeded(text) then text
    else
      match search(text.value.title)
      case Some(v) => if v != [] then Some(Titled(v, SemanticScholar)) else text
      case None => text
  }

  /** What the PDF library reports of one file. */
  datatype Paper = Paper(filename: string, metaTitle: Option<string>, blocks: seq<Block>)

  /**
   * `get_paper_title_multi_strategy`: arXiv, then metadata, then the layout
   * scan (upgraded by Semantic Scholar when the search finds a title), then
   * the file name. The provenance says which strategy was the first to
   * succeed; every strategy but the last yields a non-empty title.
   */
  function Resolve(p: Paper, lookup: string -> Option<string>, search: string -> Option<string>): (r: Titled)
    ensures r.source == Arxiv <==> Succeeded(ArxivTitle(p.filename, lookup))
    ensures r.source == PdfMetadata <==>
      !Succeeded(ArxivTitle(p.filename, lookup)) && Succeeded(MetadataTitle(p.metaTitle))
    ensures var text := TextTitle(p.blocks);
      r.source == SemanticScholar <==>
        !Succeeded(ArxivTitle(p.filename, lookup)) && !Succeeded(MetadataTitle(p.metaTitle)) && Succeeded(text) &&
        search(text.value.title).Some? && search(text.value.title).value != []
    ensures var text := TextTitle(p.blocks);
      r.source == PdfText <==>
        !Succeeded(ArxivTitle(p.filename, lookup)) && !Succeeded(MetadataTitle(p.metaTitle)) && Succeeded(text) &&
        !(search(text.value.title).Some? && search(text.value.title).value != [])
    ensures r.source == Filename <==>
      !Succeeded(ArxivTitle(p.filename, lookup)) && !Succeeded(MetadataTitle(p.metaTitle)) && !Succeeded(TextTitle(p.blocks))
    ensures r.source == Arxiv ==> r == ArxivTitle(p.filename, lookup).value
    ensures r.source == PdfMetadata ==> r == MetadataTitle(p.metaTitle).value
    ensures r.source == PdfText ==> r == TextTitle(p.blocks).value
    ensures r.source == SemanticScholar ==> r.title == search(TextTitle(p.blocks).value.title).value
    ensures r.source == Filename ==> r == CleanFilename(p.filename)
    ensures r.source != Filename ==> r.title != []
  {
    var arxiv := ArxivTitle(p.filename, lookup);
    if Succeeded(arxiv) then arxiv.value
    else
      var meta := MetadataTitle(p.metaTitle);
      if Succeeded(meta) then meta.value
      else
        var text := TextTitle(p.blocks);
        if Succeeded(text) then Verified(text, search).value
        else CleanFilename(p.filename)
  }

  /** The chain is the first success among the three strategies, with the file name as fallback. */
  lemma ResolveIsFirstSuccess(p: Paper, lookup: string -> Option<string>, search: string -> Option<string>)
    ensures Resolve(p, lookup, search) ==
      FirstSuccess([ArxivTitle(p.filename, lookup), MetadataTitle(p.metaTitle), Verified(TextTitle(p.blocks), search)],
                   CleanFilename(p.filename))
  {
    FirstOfThree(ArxivTitle(p.filename, lookup), MetadataTitle(p.metaTitle), Verified(TextTitle(p.blocks), search),
                 CleanFilename(p.filename));
  }

  /** The first success among three attempts, written out. */
  lemma FirstOfThree(a: Option<Titled>, b: Option<Titled>, c: Option<Titled>, fallback: Titled)
    ensures FirstSuccess([a, b, c], fallback) ==
      if Succeeded(a) then a.value else if Succeeded(b) then b.value else if Succeeded(c) then c.value else fallback
  {
    var attempts := [a, b, c];
    assert attempts[1..] == [b, c] && [b, c][1..] == [c] && [c][1..] == [];
    assert FirstSuccess([c], fallback) == if Succeeded(c) then c.value else fallback;
    assert FirstSuccess([b, c], fallback) == if Succeeded(b) then b.value else FirstSuccess([c], fallback);
  }

  /** `get_paper_title_multi_strategy` with its early returns. */
  method GetPaperTitle(p: Paper, lookup: string -> Option<string>, search: string -> Option<string>)
    returns (r: Titled)
    ensures r == Resolve(p, lookup, search)
  {
    var arxiv := ArxivTitle(p.filename, lookup);
    if Succeeded(arxiv) {
      return arxiv.value;
    }
    var meta := MetadataTitle(p.metaTitle);
    if Succeeded(meta) {
      return meta.value;
    }
    var text := ExtractTextTitle(p.blocks);
    if Succeeded(text) {
      var verified := search(text.value.title);
      if verified.Some? && verified.value != [] {
        return Titled(verified.value, SemanticScholar);
      }
      return text.value;
    }
    r := CleanFilename(p.filename);
  }

  // ---------------------------------------------------------------------------
  // The batch run (`__main__`)
  // ---------------------------------------------------------------------------

  /** One entry of `paper_titles.json`. */
  datatype TitleRecord = TitleRecord(title: string, source: Provenance, needsManualReview: bool)

  function RecordOf(t: Titled): TitleRecord {
    TitleRecord(t.title, t.source, t.source == Filename)
  }

  /** `extracted_titles` after the loop: one record per file name, the last one written winning. */
  function TitleMap(papers: seq<Paper>, resolve: Paper -> Titled): map<string, TitleRecord> {
    if papers == [] then map[]
    else
      var last := papers[|papers| - 1];
      TitleMap(papers[..|papers| - 1], resolve)[last.filename := RecordOf(resolve(last))]
  }

  /** The number of papers whose title came from `source`. */
  function CountSource(papers: seq<Paper>, resolve: Paper -> Titled, source: Provenance): nat {
    if papers == [] then 0
    else
      CountSource(papers[..|papers| - 1], resolve, source) +
        (if resolve(papers[|papers| - 1]).source == source then 1 else 0)
  }

  /** `sources_count` after the loop. */
  function Tally(papers: seq<Paper>, resolve: Paper -> Titled): map<Provenance, nat> {
    map s: Provenance | s in {Arxiv, PdfMetadata, PdfText, SemanticScholar, Filename} :: CountSource(papers, resolve, s)
  }

  function Total(counts: map<Provenance, nat>): nat
    requires forall s: Provenance :: s in counts
  {
    counts[Arxiv] + counts[PdfMetadata] + counts[PdfText] + counts[SemanticScholar] + counts[Filename]
  }

  /** The `__main__` loop: resolve every file, record it and tally its source. */
  method ExtractAll(papers: seq<Paper>, lookup: string -> Option<string>, search: string -> Option<string>)
    returns (titles: map<string, TitleRecord>, counts: map<Provenance, nat>)
    ensures titles == TitleMap(papers, p => Resolve(p, lookup, search))
    ensures counts == Tally(papers, p => Resolve(p, lookup, search))
  {
    ghost var resolve := p => Resolve(p, lookup, search);
    titles := map[];
    counts := map[Arxiv := 0, PdfMetadata := 0, PdfText := 0, SemanticScholar := 0, Filename := 0];
    for i := 0 to |papers|
      invariant titles == TitleMap(papers[..i], resolve)
      invariant counts == Tally(papers[..i], resolve)
    {
      var t := GetPaperTitle(papers[i], lookup, search);
      assert t == resolve(papers[i]);
      ExtractStep(papers, resolve, i, titles, counts, t);
      titles := titles[papers[i].filename := TitleRecord(t.title, t.source, t.source == Filename)];
      counts := counts[t.source := counts[t.source] + 1];
    }
    assert papers[..|papers|] == papers;
  }

  /** One turn of the `__main__` loop takes the records and the tally of the first `i` files to those of the first `i + 1`. */
  lemma ExtractStep(papers: seq<Paper>, resolve: Paper -> Titled, i: nat,
                    titles: map<string, TitleRecord>, counts: map<Provenance, nat>, t: Titled)
    requires i < |papers| && t == resolve(papers[i])
    requires titles == TitleMap(papers[..i], resolve) && counts == Tally(papers[..i], resolve)
    ensures t.source in counts
    ensures titles[papers[i].filename := RecordOf(t)] == TitleMap(papers[..i + 1], resolve)
    ensures counts[t.source := counts[t.source] + 1] == Tally(papers[..i + 1], resolve)
  {
    assert papers[..i + 1][..i] == papers[..i];
    assert papers[..i + 1][i] == papers[i];
    TallyStep(papers[..i + 1], resolve);
  }

  /**
   * Every record is flagged for manual review exactly when its title came
   * from the file name, and the files recorded are exactly the input files.
   */
  lemma {:induction false} TitleMapSpec(papers: seq<Paper>, resolve: Paper -> Titled)
    ensures var m := TitleMap(papers, resolve);
      forall f :: f in m ==> m[f].needsManualReview == (m[f].source == Filename)
    ensures forall i :: 0 <= i < |papers| ==> papers[i].filename in TitleMap(papers, resolve)
    ensures forall f :: f in TitleMap(papers, resolve) ==> exists i :: 0 <= i < |papers| && papers[i].filename == f
  {
    if papers != [] {
      var n := |papers| - 1;
      TitleMapSpec(papers[..n], resolve);
      assert forall i :: 0 <= i < n ==> papers[..n][i] == papers[i];
      forall f | f in TitleMap(papers, resolve) ensures exists i :: 0 <= i < |papers| && papers[i].filename == f {
        if f != papers[n].filename {
          var i :| 0 <= i < n && papers[..n][i].filename == f;
          assert papers[i].filename == f;
        }
      }
      var m := TitleMap(papers, resolve);
      forall f | f in m ensures m[f].needsManualReview == (m[f].source == Filename) {
        if f != papers[n].filename {
          assert m[f] == TitleMap(papers[..n], resolve)[f];
        } else {
          assert m[f] == RecordOf(resolve(papers[n]));
        }
      }
    }
  }

  /** A file's record is the resolution of the last paper with that file name. */
  lemma {:induction false} TitleMapLastWins(papers: seq<Paper>, resolve: Paper -> Titled, i: nat)
    requires i < |papers|
    requires forall j :: i < j < |papers| ==> papers[j].filename != papers[i].filename
    ensures papers[i].filename in TitleMap(papers, resolve) &&
      TitleMap(papers, resolve)[papers[i].filename] == RecordOf(resolve(papers[i]))
  {
    var n := |papers| - 1;
    TitleMapSpec(papers, resolve);
    if i < n {
      TitleMapSpec(papers[..n], resolve);
      assert papers[..n][i] == papers[i];
      TitleMapLastWins(papers[..n], resolve, i);
    }
  }

  /** Every source is a key of the tally. */
  lemma TallyKeys(papers: seq<Paper>, resolve: Paper -> Titled)
    ensures forall s: Provenance :: s in Tally(papers, resolve)
  {
    var t := Tally(papers, resolve);
    forall s: Provenance ensures s in t {
      match s
      case Arxiv => assert Arxiv in t;
      case PdfMetadata => assert PdfMetadata in t;
      case PdfText => assert PdfText in t;
      case SemanticScholar => assert SemanticScholar in t;
      case Filename => assert Filename in t;
    }
  }

  /** One more file adds one to the count of its source and changes no other count. */
  lemma TallyStep(papers: seq<Paper>, resolve: Paper -> Titled)
    requires papers != []
    ensures var n := |papers| - 1;
      var before := Tally(papers[..n], resolve);
      var s := resolve(papers[n]).source;
      s in before && Tally(papers, resolve) == before[s := before[s] + 1]
  {
    var n := |papers| - 1;
    TallyKeys(papers, resolve);
    TallyKeys(papers[..n], resolve);
    var before := Tally(papers[..n], resolve);
    var s := resolve(papers[n]).source;
    var after := Tally(papers, resolve);
    forall x: Provenance ensures after[x] == before[s := before[s] + 1][x] {
      assert after[x] == CountSource(papers, resolve, x);
    }
    assert after.Keys == before[s := before[s] + 1].Keys;
  }

  /** The source tally adds up to the number of files. */
  lemma TallyTotal(papers: seq<Paper>, resolve: Paper -> Titled)
    ensures forall s: Provenance :: s in Tally(papers, resolve)
    ensures Total(Tally(papers, resolve)) == |papers|
  {
    TallyKeys(papers, resolve);
    CountsSum(papers, resolve);
  }

  lemma {:induction false} CountsSum(papers: seq<Paper>, resolve: Paper -> Titled)
    ensures CountSource(papers, resolve, Arxiv) + CountSource(papers, resolve, PdfMetadata) +
      CountSource(papers, resolve, PdfText) + CountSource(papers, resolve, SemanticScholar) +
      CountSource(papers, resolve, Filename) == |papers|
  {
    if papers != [] {
      CountsSum(papers[..|papers| - 1], resolve);
    }
  }
}
