/**
 * The structure-aware chunker for HR employee records: the employee name is
 * taken from the file path, the record is split at its H2 headers with
 * `re.split(r"(##\s[^\n]+)", text)`, and every section with content becomes
 * one chunk whose text is prefixed with "<Employee>'s <Section title>:\n".
 */
module MarkdownRag {
  import opened Options
  import opened Text
  import Seqs

  /** One chunk: the four keys of the dictionary the chunker returns. */
  datatype Chunk = Chunk(employeeName: string, sectionTitle: string, content: string, source: string)

  /** The name used when the path does not match `/([^/]+)\.md$`. */
  const UnknownEmployee: string := "Unknown Employee"

  /** The title in force before the first header. */
  const PreambleTitle: string := "Preamble/Summary"

  // ---------------------------------------------------------------------
  // The employee name: `re.search(r"/([^/]+)\.md$", filename)`
  // ---------------------------------------------------------------------

  /** The index of the last `/` in `s`, if any. */
  function LastSlash(s: string): (r: Option<nat>)
    ensures r.Some? ==> r.value < |s| && s[r.value] == '/'
    ensures r.Some? ==> forall k :: r.value < k < |s| ==> s[k] != '/'
    ensures r.None? ==> forall k :: 0 <= k < |s| ==> s[k] != '/'
  {
    if s == [] then None
    else if s[|s| - 1] == '/' then Some(|s| - 1)
    else LastSlash(s[..|s| - 1])
  }

  /**
   * Group 1 of the name pattern. Neither `[^/]+` nor `\.md` can cross a
   * slash, so a match starts at the last `/`; `$` matches at the end or just
   * before a final newline, so a path ending in ".md\n" matches as well.
   */
  function PathStem(path: string): (r: Option<string>)
    ensures r.Some? ==> r.value != [] && '/' !in r.value
    ensures r.Some? ==> EndsWith(path, "/" + r.value + ".md") || EndsWith(path, "/" + r.value + ".md\n")
  {
    match LastSlash(path)
    case None => None
    case Some(p) =>
      var stem := StemBefore(path, p, ".md");
      if stem.Some? then stem else StemBefore(path, p, ".md\n")
  }

  /**
   * The name between the last slash, at `p`, and the extension `ext` ending
   * the path, when there is at least one character between them.
   */
  function StemBefore(path: string, p: nat, ext: string): (r: Option<string>)
    requires p < |path| && path[p] == '/'
    requires forall k :: p < k < |path| ==> path[k] != '/'
    ensures r.Some? <==> |path| - p >= |ext| + 2 && EndsWith(path, ext)
    ensures r.Some? ==> r.value != [] && '/' !in r.value && EndsWith(path, "/" + r.value + ext)
  {
    if |path| - p >= |ext| + 2 && EndsWith(path, ext) then
      var stem := path[p + 1..|path| - |ext|];
      assert path[p..] == "/" + stem + ext;
      Some(stem)
    else None
  }

  /** `match.group(1).replace("-", " ") if match else "Unknown Employee"`: never holds a dash or a slash. */
  function EmployeeName(filename: string): (r: string)
    ensures '-' !in r && '/' !in r
  {
    match PathStem(filename)
    case None => UnknownEmployee
    case Some(stem) =>
      var r := ReplaceChar(stem, '-', ' ');
      assert forall k :: 0 <= k < |r| ==> r[k] != '-' && r[k] != '/';
      r
  }

  /** Appending text without a slash leaves the last slash where it was. */
  lemma {:induction false} LastSlashNoSlashTail(a: string, b: string)
    requires '/' !in b
    ensures LastSlash(a + b) == LastSlash(a)
  {
    if b == [] {
      assert a + b == a;
    } else {
      var ab := a + b;
      assert ab[|ab| - 1] == b[|b| - 1];
      assert ab[..|ab| - 1] == a + b[..|b| - 1];
      LastSlashNoSlashTail(a, b[..|b| - 1]);
    }
  }

  /** The last slash of `dir + "/" + rest` is the one after `dir` when `rest` has none. */
  lemma LastSlashOfJoin(dir: string, rest: string)
    requires '/' !in rest
    ensures LastSlash(dir + "/" + rest) == Some(|dir|)
  {
    assert LastSlash(dir + "/") == Some(|dir|);
    LastSlashNoSlashTail(dir + "/", rest);
  }

  /** A path ending in "/<stem>.md" names the employee `stem`, dashes read as spaces. */
  lemma EmployeeNameFromPath(dir: string, stem: string)
    requires stem != [] && '/' !in stem
    ensures EmployeeName(dir + "/" + stem + ".md") == ReplaceChar(stem, '-', ' ')
  {
    var path := dir + "/" + stem + ".md";
    assert path == dir + "/" + (stem + ".md");
    LastSlashOfJoin(dir, stem + ".md");
    assert path[|path| - 3..] == ".md";
    assert path[|dir| + 1..|path| - 3] == stem;
  }

  /** The same holds when the path carries one trailing newline, which `$` lets through. */
  lemma EmployeeNameFromPathWithNewline(dir: string, stem: string)
    requires stem != [] && '/' !in stem
    ensures EmployeeName(dir + "/" + stem + ".md\n") == ReplaceChar(stem, '-', ' ')
  {
    var path := dir + "/" + stem + ".md\n";
    assert path == dir + "/" + (stem + ".md\n");
    LastSlashOfJoin(dir, stem + ".md\n");
    assert path[|path| - 1] == '\n';
    assert !EndsWith(path, ".md");
    assert path[|path| - 4..] == ".md\n";
    assert path[|dir| + 1..|path| - 4] == stem;
  }

  /** A path without a slash, a bare file name included, does not match. */
  lemma EmployeeNameWithoutSlash(filename: string)
    requires '/' !in filename
    ensures EmployeeName(filename) == UnknownEmployee
  {
    assert LastSlash(filename).None?;
  }

  /** A path that ends neither in ".md" nor in ".md\n" does not match. */
  lemma EmployeeNameNotMarkdown(filename: string)
    requires !EndsWith(filename, ".md") && !EndsWith(filename, ".md\n")
    ensures EmployeeName(filename) == UnknownEmployee
  {
    var stem := PathStem(filename);
    if stem.Some? {
      if EndsWith(filename, "/" + stem.value + ".md") {
        EndsWithJoin(filename, "/" + stem.value, ".md");
      } else {
        EndsWithJoin(filename, "/" + stem.value, ".md\n");
      }
    }
  }

  /** Replacing a character that does not occur changes nothing. */
  lemma ReplaceAbsentChar(s: string, from: char, to: char)
    requires from !in s
    ensures ReplaceChar(s, from, to) == s
  {
  }

  /** The sample record's path names Nina Patel. (Paths are written as joins so that they are not unfolded as literals.) */
  lemma EmployeeNameOfSample()
    ensures EmployeeName("knowledge-base/employees" + "/" + "Nina Patel" + ".md") == "Nina Patel"
  {
    EmployeeNameFromPath("knowledge-base/employees", "Nina Patel");
    ReplaceAbsentChar("Nina Patel", '-', ' ');
  }

  /** Dashes in the file name read as spaces. */
  lemma EmployeeNameWithDash()
    ensures EmployeeName("kb/people" + "/" + "Jane-Doe" + ".md") == "Jane Doe"
  {
    EmployeeNameFromPath("kb/people", "Jane-Doe");
    assert ReplaceChar("Jane-Doe", '-', ' ') == "Jane Doe";
  }

  /** A bare file name has no directory part, so it names nobody. */
  lemma EmployeeNameOfBareFile()
    ensures EmployeeName("Nina Patel" + ".md") == UnknownEmployee
  {
    EmployeeNameWithoutSlash("Nina Patel" + ".md");
  }

  // ---------------------------------------------------------------------
  // The split: `re.split(r"(##\s[^\n]+)", text)`
  // ---------------------------------------------------------------------

  /** A match of `##\s[^\n]+` starts at index `k` of `s`. */
  predicate HeaderAt(s: string, k: int)
  {
    0 <= k && k + 4 <= |s| && s[k] == '#' && s[k + 1] == '#' && IsSpace(s[k + 2]) && s[k + 3] != '\n'
  }

  /** `h` is, as a whole, a match of `##\s[^\n]+`. */
  predicate IsHeader(h: string)
  {
    HeaderAt(h, 0) && forall k :: 3 <= k < |h| ==> h[k] != '\n'
  }

  /** No match of the header pattern starts anywhere in `s`. */
  predicate HasNoHeader(s: string)
  {
    forall k :: 0 <= k < |s| ==> !HeaderAt(s, k)
  }

  /** The end of the line holding index `from`: the next newline, or the end of `s`. */
  function LineEnd(s: string, from: nat): (e: nat)
    requires from <= |s|
    decreases |s| - from
    ensures from <= e <= |s| && (e == |s| || s[e] == '\n')
    ensures forall k :: from <= k < e ==> s[k] != '\n'
  {
    if from == |s| || s[from] == '\n' then from else LineEnd(s, from + 1)
  }

  /** The leftmost match of the header pattern at or after `from`. */
  function FindHeader(s: string, from: nat): (r: Option<nat>)
    requires from <= |s|
    decreases |s| - from
    ensures r.Some? ==> from <= r.value && HeaderAt(s, r.value)
    ensures r.Some? ==> forall k :: from <= k < r.value ==> !HeaderAt(s, k)
    ensures r.None? ==> forall k :: from <= k < |s| ==> !HeaderAt(s, k)
  {
    if from == |s| then None
    else if HeaderAt(s, from) then Some(from)
    else FindHeader(s, from + 1)
  }

  /**
   * `re.split(r"(##\s[^\n]+)", s)`: the text before the leftmost header
   * match, the match (greedy, so it runs to the end of its line), then the
   * split of what follows it.
   */
  function Tokenize(s: string): (parts: seq<string>)
    decreases |s|
    ensures |parts| % 2 == 1
  {
    match FindHeader(s, 0)
    case None => [s]
    case Some(j) =>
      var e := LineEnd(s, j + 3);
      [s[..j], s[j..e]] + Tokenize(s[e..])
  }

  lemma ConcatPair(a: string, b: string, rest: seq<string>)
    ensures Concat([a, b] + rest) == a + b + Concat(rest)
  {
    var parts := [a, b] + rest;
    assert parts[1..] == [b] + rest;
    assert parts[1..][1..] == rest;
  }

  lemma {:induction false} TokenizeConcat(s: string)
    decreases |s|
    ensures Concat(Tokenize(s)) == s
  {
    match FindHeader(s, 0)
    case None =>
      assert Concat([s]) == s + Concat([]);
    case Some(j) =>
      var e := LineEnd(s, j + 3);
      TokenizeConcat(s[e..]);
      ConcatPair(s[..j], s[j..e], Tokenize(s[e..]));
      SplitTwice(s, j, e);
  }

  /** A string is its three consecutive slices joined. */
  lemma SplitTwice(s: string, j: nat, e: nat)
    requires j <= e <= |s|
    ensures s == s[..j] + s[j..e] + s[e..]
  {
  }

  /**
   * The parts alternate: every odd part is a whole header match, no even part
   * contains the start of a match, and every part after a header is empty or
   * starts with the newline that ended the header's line.
   */
  predicate WellSplit(parts: seq<string>)
  {
    && (forall i :: 0 <= i < |parts| && i % 2 == 1 ==> IsHeader(parts[i]))
    && (forall i :: 0 <= i < |parts| && i % 2 == 0 ==> HasNoHeader(parts[i]))
    && (forall i :: 0 < i < |parts| && i % 2 == 0 ==> parts[i] == [] || parts[i][0] == '\n')
  }

  /** Putting text without a match and a header match in front of a well split list keeps it well split. */
  lemma WellSplitCons(a: string, b: string, rest: seq<string>)
    requires HasNoHeader(a) && IsHeader(b) && WellSplit(rest)
    requires rest != [] && (rest[0] == [] || rest[0][0] == '\n')
    ensures WellSplit([a, b] + rest)
  {
    var parts := [a, b] + rest;
    assert forall i :: 2 <= i < |parts| ==> parts[i] == rest[i - 2];
  }

  /** The split of every text is well split. */
  lemma {:induction false} TokenizeParts(s: string)
    decreases |s|
    ensures WellSplit(Tokenize(s))
  {
    match FindHeader(s, 0)
    case None =>
    case Some(j) =>
      var e := LineEnd(s, j + 3);
      var rest := Tokenize(s[e..]);
      assert Tokenize(s) == [s[..j], s[j..e]] + rest;
      TokenizeParts(s[e..]);
      PrefixHasNoHeader(s, j);
      HeaderSlice(s, j, e);
      assert rest[0] == [] || rest[0][0] == '\n' by {
        TokenizeFirst(s[e..]);
      }
      WellSplitCons(s[..j], s[j..e], rest);
  }

  /** A part the scan takes for a header: it starts with "##" and is not blank. */
  predicate TakenForHeader(part: string)
  {
    StartsWith(part, "##") && Strip(part) != []
  }

  /** Every header part of a split (at an odd index `2 * n - 1`) is taken for a header by the scan. */
  lemma TokenizeHeaderParts(s: string)
    ensures var parts := Tokenize(s);
      forall n :: 0 < n && 2 * n - 1 < |parts| ==> TakenForHeader(parts[2 * n - 1])
  {
    TokenizeParts(s);
    var parts := Tokenize(s);
    forall n | 0 < n && 2 * n - 1 < |parts|
      ensures TakenForHeader(parts[2 * n - 1])
    {
      var h := parts[2 * n - 1];
      assert (2 * n - 1) % 2 == 1;
      assert IsHeader(h);
      assert h[..2] == "##" && !IsSpace(h[0]);
    }
  }

  /** An even part after the first is empty or starts with a newline, so it never starts with "##". */
  lemma TokenizeLaterEvenPart(s: string, i: nat)
    requires 0 < i < |Tokenize(s)| && i % 2 == 0
    ensures !StartsWith(Tokenize(s)[i], "##")
  {
    TokenizeParts(s);
    assert Tokenize(s)[i] == [] || Tokenize(s)[i][0] == '\n';
  }

  /** The first part of a split is a prefix of the text. */
  lemma TokenizeFirst(s: string)
    ensures var parts := Tokenize(s); |parts[0]| <= |s| && parts[0] == s[..|parts[0]|]
  {
  }

  lemma PrefixHasNoHeader(s: string, j: nat)
    requires j <= |s|
    requires forall k :: 0 <= k < j ==> !HeaderAt(s, k)
    ensures HasNoHeader(s[..j])
  {
    forall k | 0 <= k < j
      ensures !HeaderAt(s[..j], k)
    {
      assert !HeaderAt(s, k);
    }
  }

  lemma HeaderSlice(s: string, j: nat, e: nat)
    requires HeaderAt(s, j) && j + 4 <= e <= |s|
    requires forall k :: j + 3 <= k < e ==> s[k] != '\n'
    ensures IsHeader(s[j..e])
  {
    assert forall k :: 0 <= k < e - j ==> s[j..e][k] == s[j + k];
  }

  // ---------------------------------------------------------------------
  // Sections and chunks: the specification of the scan
  // ---------------------------------------------------------------------

  /**
   * A section: the header part in force (`None` before the first header) and
   * the text part that follows it.
   */
  datatype Section = Section(header: Option<string>, body: string)

  /** `part.strip().lstrip("##").strip()`: the title a header part sets. */
  function HeaderTitle(part: string): (r: string)
    ensures r == [] || (!IsSpace(r[0]) && !IsSpace(r[|r| - 1]))
  {
    Strip(LStripChar(Strip(part), '#'))
  }

  /** The title of "## <t>" is `t` itself when `t` is trimmed and does not start with `#`. */
  lemma HeaderTitleOf(t: string)
    requires t != [] && !IsSpace(t[0]) && !IsSpace(t[|t| - 1]) && t[0] != '#'
    ensures HeaderTitle("## " + t) == t
  {
    var u := [' '] + t;
    var h := ['#'] + (['#'] + u);
    assert h == "## " + t;
    assert h[|h| - 1] == t[|t| - 1];
    StripTrimmed(h);
    LStripCharCons('#', ['#'] + u);
    LStripCharCons('#', u);
    assert LStripChar(u, '#') == u;
    LStripSpaceCons(' ', t);
    StripTrimmed(t);
  }

  /** `lstrip` of `c` removes a leading `c`, then goes on. */
  lemma LStripCharCons(c: char, s: string)
    ensures LStripChar([c] + s, c) == LStripChar(s, c)
  {
    assert ([c] + s)[1..] == s;
  }

  /** `lstrip()` removes a leading space, then goes on. */
  lemma LStripSpaceCons(x: char, s: string)
    requires IsSpace(x)
    ensures LStrip([x] + s) == LStrip(s)
  {
    assert ([x] + s)[1..] == s;
  }

  /**
   * The sections of alternating text and header parts: the first text part
   * under `first`, then those of the rest under the next header part.
   */
  function SectionsOf(parts: seq<string>, first: Option<string>): (secs: seq<Section>)
    decreases |parts|
    ensures 2 * |secs| - 1 <= |parts| <= 2 * |secs|
  {
    if parts == [] then []
    else if |parts| == 1 then [Section(first, parts[0])]
    else [Section(first, parts[0])] + SectionsOf(parts[2..], Some(parts[1]))
  }

  /**
   * Section `n` holds text part `2 * n`, under `first` for the first and
   * otherwise under the header part just before it.
   */
  lemma {:induction false} SectionAt(parts: seq<string>, first: Option<string>, n: nat)
    requires 2 * n < |parts|
    decreases n
    ensures var secs := SectionsOf(parts, first);
      && n < |secs|
      && secs[n] == Section(if n == 0 then first else Some(parts[2 * n - 1]), parts[2 * n])
  {
    if n > 0 {
      SectionAt(parts[2..], Some(parts[1]), n - 1);
      assert parts[2..][2 * (n - 1)] == parts[2 * n];
      if n > 1 {
        assert parts[2..][2 * (n - 1) - 1] == parts[2 * n - 1];
      }
    }
  }

  /**
   * A text part yields a chunk when it is not blank and does not itself
   * start with "##" (the scan takes such a part for a header).
   */
  predicate Emits(body: string)
  {
    !IsBlank(body) && !StartsWith(body, "##")
  }

  /** The contextual tag: "<Employee>'s <Section title>:\n". */
  function Tag(name: string, title: string): string
  {
    name + "'s " + title + ":\n"
  }

  /** The title a section is filed under: "Preamble/Summary" before the first header, else the header's title. */
  function SectionTitle(sec: Section): string
  {
    match sec.header
    case None => PreambleTitle
    case Some(h) => HeaderTitle(h)
  }

  /** The chunk of one section. */
  function ChunkOf(name: string, source: string, sec: Section): Chunk
  {
    var title := SectionTitle(sec);
    Chunk(name, title, Tag(name, title) + Strip(sec.body), source)
  }

  /**
   * The chunk of a section that emits carries the employee, the section's
   * title and the source; its content is the tag followed by the section's
   * text, trimmed and not empty, so the content is never blank.
   */
  lemma ChunkOfShape(name: string, source: string, sec: Section)
    requires Emits(sec.body)
    ensures var c := ChunkOf(name, source, sec);
      && c.employeeName == name && c.sectionTitle == SectionTitle(sec) && c.source == source
      && StartsWith(c.content, Tag(name, SectionTitle(sec)))
      && !IsBlank(c.content)
      && (var text := c.content[|Tag(name, SectionTitle(sec))|..];
          text != [] && !IsSpace(text[0]) && !IsSpace(text[|text| - 1]) && Strip(sec.body) == text)
  {
    var t := Tag(name, SectionTitle(sec));
    var c := ChunkOf(name, source, sec);
    assert c.content[..|t|] == t;
    assert c.content[|t|..] == Strip(sec.body);
    assert c.content[|name|] == t[|name|] == '\'';
  }

  /**
   * The chunks of a list of sections, in order: at most one per section,
   * each carrying the employee and the source, none with blank content.
   */
  function SectionChunks(name: string, source: string, secs: seq<Section>): (r: seq<Chunk>)
    ensures |r| <= |secs|
    ensures forall c :: c in r ==> c.employeeName == name && c.source == source && !IsBlank(c.content)
  {
    if secs == [] then []
    else if Emits(secs[0].body) then
      var first := ChunkOf(name, source, secs[0]);
      var rest := SectionChunks(name, source, secs[1..]);
      ChunkOfShape(name, source, secs[0]);
      assert forall c :: c in [first] + rest ==> c == first || c in rest;
      [first] + rest
    else SectionChunks(name, source, secs[1..])
  }

  /** The section a chunk comes from: one that emits, and whose chunk it is. */
  lemma {:induction false} SectionOfChunk(name: string, source: string, secs: seq<Section>, c: Chunk) returns (k: nat)
    requires c in SectionChunks(name, source, secs)
    ensures k < |secs| && Emits(secs[k].body) && c == ChunkOf(name, source, secs[k])
  {
    var rest := SectionChunks(name, source, secs[1..]);
    if Emits(secs[0].body) && c == ChunkOf(name, source, secs[0]) {
      k := 0;
    } else {
      assert c in rest by {
        if Emits(secs[0].body) {
          assert SectionChunks(name, source, secs) == [ChunkOf(name, source, secs[0])] + rest;
        }
      }
      var k' := SectionOfChunk(name, source, secs[1..], c);
      assert secs[1..][k'] == secs[k' + 1];
      k := k' + 1;
    }
  }

  /** Every section that emits gives its chunk. */
  lemma {:induction false} SectionChunksComplete(name: string, source: string, secs: seq<Section>)
    ensures forall k :: 0 <= k < |secs| && Emits(secs[k].body) ==> ChunkOf(name, source, secs[k]) in SectionChunks(name, source, secs)
  {
    if secs != [] {
      SectionChunksComplete(name, source, secs[1..]);
      assert forall k :: 1 <= k < |secs| ==> secs[k] == secs[1..][k - 1];
    }
  }

  /** Chunks of joined section lists are the chunks of each, in order. */
  lemma {:induction false} SectionChunksAppend(name: string, source: string, s1: seq<Section>, s2: seq<Section>)
    ensures SectionChunks(name, source, s1 + s2) == SectionChunks(name, source, s1) + SectionChunks(name, source, s2)
  {
    if s1 == [] {
      assert s1 + s2 == s2;
    } else {
      assert (s1 + s2)[0] == s1[0];
      assert (s1 + s2)[1..] == s1[1..] + s2;
      SectionChunksAppend(name, source, s1[1..], s2);
    }
  }

  /** The chunks of a record: its sections after the split, the first under "Preamble/Summary". */
  function MarkdownChunks(text: string, filename: string): seq<Chunk>
  {
    SectionChunks(EmployeeName(filename), filename, SectionsOf(Tokenize(text), None))
  }

  /** The test of the final filter: the chunk's content is not blank. */
  predicate HasContent(c: Chunk)
  {
    !IsBlank(c.content)
  }

  /** `[c for c in chunks if c["content"].strip()]`: the chunks whose content is not blank, in order. */
  function KeepNonBlank(chunks: seq<Chunk>): (r: seq<Chunk>)
    ensures r == Seqs.Filter(chunks, HasContent)
    ensures forall c :: c in r <==> c in chunks && !IsBlank(c.content)
  {
    if chunks == [] then []
    else (if IsBlank(chunks[0].content) then [] else [chunks[0]]) + KeepNonBlank(chunks[1..])
  }

  /** The final filter keeps every chunk whose content is not blank, so it drops nothing the scan makes. */
  lemma {:induction false} KeepNonBlankKeepsAll(chunks: seq<Chunk>)
    requires forall c :: c in chunks ==> !IsBlank(c.content)
    ensures KeepNonBlank(chunks) == chunks
  {
    if chunks != [] {
      assert !IsBlank(chunks[0].content) by { assert chunks[0] in chunks; }
      assert KeepNonBlank(chunks[1..]) == chunks[1..] by {
        assert forall c :: c in chunks[1..] ==> c in chunks;
        KeepNonBlankKeepsAll(chunks[1..]);
      }
      assert [chunks[0]] + chunks[1..] == chunks;
    }
  }

  // ---------------------------------------------------------------------
  // The scan: `split_and_tag_markdown`
  // ---------------------------------------------------------------------

  /**
   * `split_and_tag_markdown(document_text, filename)`: the employee name from
   * the path, the split of the text, the scan over the parts, then the final
   * filter of chunks with blank content. The result is the section-wise chunk
   * list of the record.
   */
  method SplitAndTagMarkdown(documentText: string, filename: string) returns (chunks: seq<Chunk>)
    ensures chunks == MarkdownChunks(documentText, filename)
  {
    var employeeName := EmployeeName(filename);
    var sections := Tokenize(documentText);
    TokenizeHeaderParts(documentText);
    chunks := ScanParts(employeeName, filename, sections);
    KeepNonBlankKeepsAll(chunks);
    chunks := KeepNonBlank(chunks);
  }

  /**
   * The loop of `split_and_tag_markdown` over the split parts. It keeps a
   * current title and a current content: a header part sets the title, a
   * text part with content is tagged and emitted, after which content and
   * title are reset; blank parts are skipped. Given alternating text and
   * header parts, it emits exactly the chunks of the parts' sections.
   */
  method ScanParts(employeeName: string, filename: string, sections: seq<string>) returns (chunks: seq<Chunk>)
    requires forall n :: 0 < n && 2 * n - 1 < |sections| ==> TakenForHeader(sections[2 * n - 1])
    ensures chunks == SectionChunks(employeeName, filename, SectionsOf(sections, None))
  {
    ghost var secs := SectionsOf(sections, None);
    chunks := [];
    var currentTitle := PreambleTitle;
    var currentContent := "";
    ghost var n := 0;
    for i := 0 to |sections|
      invariant i == 2 * n || i + 1 == 2 * n
      invariant n <= |secs|
      invariant currentContent == ""
      invariant chunks == SectionChunks(employeeName, filename, secs[..n])
      invariant i == 2 * n && i < |sections| ==> n < |secs| && currentTitle == SectionTitle(secs[n])
    {
      var part := sections[i];
      var chunks', title', content' := ScanPart(employeeName, filename, part, chunks, currentTitle, currentContent);
      if i == 2 * n {
        ScanTextTurn(employeeName, filename, sections, n, chunks, currentTitle, chunks', title', content');
        n := n + 1;
      } else {
        ScanHeaderTurn(employeeName, filename, sections, n, chunks, currentTitle, chunks', title', content');
      }
      chunks, currentTitle, currentContent := chunks', title', content';
    }
    assert secs[..n] == secs;
  }

  /**
   * One turn of the loop of `split_and_tag_markdown` on one part, as the new
   * chunks, title and content: a blank part changes nothing; a header part
   * sets the title and clears the content; any other part is emitted, tagged
   * with the current title, after which content and title are reset.
   */
  function ScanTurn(employeeName: string, filename: string, part: string,
                    chunks: seq<Chunk>, title: string, content: string): (seq<Chunk>, string, string)
  {
    if Strip(part) == "" then (chunks, title, content)
    else if StartsWith(part, "##") then (chunks, HeaderTitle(part), "")
    else (chunks + [Chunk(employeeName, title, Tag(employeeName, title) + (content + Strip(part)), filename)], "", "")
  }

  /**
   * The body of the loop of `split_and_tag_markdown`, on one part, step by
   * step as the loop runs it. Its contract only says that it computes
   * `ScanTurn`; what a turn means for the sections is stated by
   * `ScanTextTurn` and `ScanHeaderTurn`, which `ScanParts` uses.
   */
  method ScanPart(employeeName: string, filename: string, part: string,
                  chunks: seq<Chunk>, currentTitle: string, currentContent: string)
    returns (chunks': seq<Chunk>, title': string, content': string)
    ensures (chunks', title', content') == ScanTurn(employeeName, filename, part, chunks, currentTitle, currentContent)
  {
    chunks', title', content' := chunks, currentTitle, currentContent;
    if Strip(part) != "" {
      if StartsWith(part, "##") {
        title' := HeaderTitle(part);
        content' := "";
      } else {
        content' := content' + Strip(part);
      }
      if content' != "" && !StartsWith(part, "##") {
        var taggedContent := employeeName + "'s " + title' + ":\n" + content';
        chunks' := chunks' + [Chunk(employeeName, title', taggedContent, filename)];
        content' := "";
        title' := "";
      }
    }
  }

  /**
   * The turn on the text part of section `n`, under that section's title and
   * with no pending content, adds exactly the section's chunk, if it emits,
   * and leaves no pending content.
   */
  lemma ScanTextTurn(name: string, source: string, parts: seq<string>, n: nat,
                     chunks: seq<Chunk>, title: string, chunks': seq<Chunk>, title': string, content': string)
    requires 2 * n < |parts|
    requires n < |SectionsOf(parts, None)| && title == SectionTitle(SectionsOf(parts, None)[n])
    requires chunks == SectionChunks(name, source, SectionsOf(parts, None)[..n])
    requires (chunks', title', content') == ScanTurn(name, source, parts[2 * n], chunks, title, "")
    ensures content' == "" && chunks' == SectionChunks(name, source, SectionsOf(parts, None)[..n + 1])
  {
    var secs := SectionsOf(parts, None);
    SectionAt(parts, None, n);
    ScanStep(name, source, secs, n);
    assert "" + Strip(parts[2 * n]) == Strip(parts[2 * n]);
  }

  /**
   * The turn on header part `2 * n - 1` changes no chunk, leaves no pending
   * content, and sets the title of the section that follows it.
   */
  lemma ScanHeaderTurn(name: string, source: string, parts: seq<string>, n: nat,
                       chunks: seq<Chunk>, title: string, chunks': seq<Chunk>, title': string, content': string)
    requires 0 < n && 2 * n - 1 < |parts| && TakenForHeader(parts[2 * n - 1])
    requires (chunks', title', content') == ScanTurn(name, source, parts[2 * n - 1], chunks, title, "")
    ensures chunks' == chunks && content' == ""
    ensures 2 * n < |parts| ==>
              n < |SectionsOf(parts, None)| && title' == SectionTitle(SectionsOf(parts, None)[n])
  {
    if 2 * n < |parts| {
      SectionAt(parts, None, n);
    }
  }

  /** Section `n` adds its chunk to those of the sections before it, if it emits. */
  lemma ScanStep(name: string, source: string, secs: seq<Section>, n: nat)
    requires n < |secs|
    ensures SectionChunks(name, source, secs[..n + 1])
            == SectionChunks(name, source, secs[..n]) + (if Emits(secs[n].body) then [ChunkOf(name, source, secs[n])] else [])
  {
    assert secs[..n + 1] == secs[..n] + [secs[n]];
    SectionChunksAppend(name, source, secs[..n], [secs[n]]);
    SectionChunksOne(name, source, secs[n]);
  }

  /** A single section gives its chunk when it emits, else nothing. */
  lemma SectionChunksOne(name: string, source: string, sec: Section)
    ensures SectionChunks(name, source, [sec]) == if Emits(sec.body) then [ChunkOf(name, source, sec)] else []
  {
    assert [sec][1..] == [];
  }

  // ---------------------------------------------------------------------
  // Properties of the chunks of a record
  // ---------------------------------------------------------------------

  /** At most one chunk per header, plus one for the text before the first header. */
  lemma ChunkCountBound(text: string, filename: string)
    ensures 2 * |MarkdownChunks(text, filename)| <= |Tokenize(text)| + 1
  {
  }

  /** A record without any header gives one "Preamble/Summary" chunk when its text has content, else none. */
  lemma RecordWithoutHeader(text: string, filename: string)
    requires HasNoHeader(text)
    ensures var name := EmployeeName(filename);
      MarkdownChunks(text, filename)
      == if Emits(text) then [Chunk(name, PreambleTitle, Tag(name, PreambleTitle) + Strip(text), filename)] else []
  {
    assert FindHeader(text, 0).None?;
    assert Tokenize(text) == [text];
    var secs := SectionsOf([text], None);
    assert secs == [Section(None, text)];
    assert secs[1..] == [];
  }

  /**
   * Text before the first header that is not blank (and does not itself
   * start with "##") gives the first chunk, titled "Preamble/Summary" and
   * holding that text trimmed.
   */
  lemma PreambleChunk(text: string, filename: string)
    requires Emits(Tokenize(text)[0])
    ensures var parts := Tokenize(text);
      var name := EmployeeName(filename);
      var chunks := MarkdownChunks(text, filename);
      chunks != [] && chunks[0] == Chunk(name, PreambleTitle, Tag(name, PreambleTitle) + Strip(parts[0]), filename)
  {
    var parts := Tokenize(text);
    SectionAt(parts, None, 0);
  }

  /**
   * Every header whose following text is not blank gives a chunk titled with
   * the header's title, tagged and holding that text trimmed. (Text after a
   * header starts with a newline, so it is never mistaken for a header.)
   */
  lemma HeaderSectionChunk(text: string, filename: string, n: nat)
    requires var parts := Tokenize(text); 0 < n && 2 * n < |parts| && !IsBlank(parts[2 * n])
    ensures var parts := Tokenize(text);
      var name := EmployeeName(filename);
      var title := HeaderTitle(parts[2 * n - 1]);
      Chunk(name, title, Tag(name, title) + Strip(parts[2 * n]), filename) in MarkdownChunks(text, filename)
  {
    var parts := Tokenize(text);
    var name := EmployeeName(filename);
    var secs := SectionsOf(parts, None);
    TokenizeLaterEvenPart(text, 2 * n);
    SectionAt(parts, None, n);
    assert Emits(secs[n].body);
    SectionChunksComplete(name, filename, secs);
  }

  /**
   * Conversely, every chunk comes either from the text before the first
   * header, titled "Preamble/Summary", or from a header (the part at index
   * `2 * n - 1`) whose following text it holds.
   */
  lemma ChunkOrigin(text: string, filename: string, c: Chunk)
    requires c in MarkdownChunks(text, filename)
    ensures var parts := Tokenize(text);
      var name := EmployeeName(filename);
      || (!IsBlank(parts[0]) && c == Chunk(name, PreambleTitle, Tag(name, PreambleTitle) + Strip(parts[0]), filename))
      || exists n :: 0 < n && 2 * n < |parts| && !IsBlank(parts[2 * n])
           && c == Chunk(name, HeaderTitle(parts[2 * n - 1]), Tag(name, HeaderTitle(parts[2 * n - 1])) + Strip(parts[2 * n]), filename)
  {
    var parts := Tokenize(text);
    var name := EmployeeName(filename);
    var secs := SectionsOf(parts, None);
    assert MarkdownChunks(text, filename) == SectionChunks(name, filename, secs);
    var n := SectionOfChunk(name, filename, secs, c);
    SectionAt(parts, None, n);
    if n > 0 {
      var title := HeaderTitle(parts[2 * n - 1]);
      assert c == Chunk(name, title, Tag(name, title) + Strip(parts[2 * n]), filename);
      assert 0 < n && 2 * n < |parts| && !IsBlank(parts[2 * n]);
    }
  }
}
