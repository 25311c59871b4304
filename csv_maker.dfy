/**
 * The glossary segmenter of `cog_psy_game/csv_maker.py`: raw glossary lines
 * become (term, definition) entries.
 *
 * An entry opens on the first line read while no entry is open: the text
 * before the line's first capital (minus one more character) is the term and
 * the rest starts the definition. Every following line is appended to the
 * definition after a space; the first such line that contains a chapter
 * citation closes the entry.
 *
 * `Segment` is the entry-by-entry reference definition; `TextToCsv` is the
 * source's line-by-line loop, proved to compute it.
 */
module CsvMaker {
  import opened Text
  import opened Wrappers

  /** One output row: the `Term` and `Definition` columns. */
  datatype Entry = Entry(term: string, definition: string)

  // ---------------------------------------------------------------------------
  // sanitize_text: `text.strip()`
  // ---------------------------------------------------------------------------

  /** `s.lstrip()`. */
  function StripLeft(s: string): string {
    if s != [] && IsSpace(s[0]) then StripLeft(s[1..]) else s
  }

  /** `s.rstrip()`. */
  function StripRight(s: string): string {
    if s != [] && IsSpace(s[|s| - 1]) then StripRight(s[..|s| - 1]) else s
  }

  /** `sanitize_text`: `text.strip()`. */
  function Sanitize(s: string): string {
    StripRight(StripLeft(s))
  }

  /** `lstrip` leaves the longest suffix of `s` that does not start with whitespace. */
  lemma {:induction false} StripLeftSpec(s: string)
    ensures var r := StripLeft(s);
      && |r| <= |s| && r == s[|s| - |r|..]
      && (forall i :: 0 <= i < |s| - |r| ==> IsSpace(s[i]))
      && (r != [] ==> !IsSpace(r[0]))
  {
    if s != [] && IsSpace(s[0]) {
      StripLeftSpec(s[1..]);
      var r := StripLeft(s);
      forall i | 0 <= i < |s| - |r| ensures IsSpace(s[i]) {
        if i > 0 { assert s[i] == s[1..][i - 1]; }
      }
    }
  }

  /** `rstrip` leaves the longest prefix of `s` that does not end with whitespace. */
  lemma {:induction false} StripRightSpec(s: string)
    ensures var r := StripRight(s);
      && |r| <= |s| && r == s[..|r|]
      && (forall i :: |r| <= i < |s| ==> IsSpace(s[i]))
      && (r != [] ==> !IsSpace(r[|r| - 1]))
  {
    if s != [] && IsSpace(s[|s| - 1]) {
      StripRightSpec(s[..|s| - 1]);
      var r := StripRight(s);
      forall i | |r| <= i < |s| ensures IsSpace(s[i]) {
        if i < |s| - 1 { assert s[i] == s[..|s| - 1][i]; }
      }
    }
  }

  /**
   * `sanitize_text` keeps a contiguous slice of its input: only whitespace
   * is removed, and only at the two ends.
   */
  lemma SanitizeSpec(s: string)
    ensures var r, a := Sanitize(s), |s| - |StripLeft(s)|;
      && 0 <= a <= a + |r| <= |s| && r == s[a..a + |r|]
      && (forall i :: 0 <= i < a ==> IsSpace(s[i]))
      && (forall i :: a + |r| <= i < |s| ==> IsSpace(s[i]))
      && (r != [] ==> !IsSpace(r[0]) && !IsSpace(r[|r| - 1]))
  {
    var l := StripLeft(s);
    StripLeftSpec(s);
    var r := StripRight(l);
    StripRightSpec(l);
    var a := |s| - |l|;
    assert l == s[a..];
    assert r == s[a..a + |r|];
    forall i | a + |r| <= i < |s| ensures IsSpace(s[i]) {
      assert s[i] == l[i - a];
    }
    if r != [] {
      assert r[0] == l[0];
    }
  }

  /** Sanitizing twice is sanitizing once. */
  lemma SanitizeIdempotent(s: string)
    ensures Sanitize(Sanitize(s)) == Sanitize(s)
  {
    SanitizeSpec(s);
    var r := Sanitize(s);
    if r != [] {
      assert StripLeft(r) == r;
      assert StripRight(r) == r;
    }
  }

  /** A line without whitespace at either end is its own sanitized form. */
  lemma SanitizeKeeps(s: string)
    requires s != [] && !IsSpace(s[0]) && !IsSpace(s[|s| - 1])
    ensures Sanitize(s) == s
  {
    assert StripLeft(s) == s;
  }

  // ---------------------------------------------------------------------------
  // find_first_capital
  // ---------------------------------------------------------------------------

  /** The index of the first capital of `s`, or -1 when `s` has none. */
  function FirstCapital(s: string): (i: int)
    ensures -1 <= i < |s|
  {
    if s == [] then -1
    else if IsUpper(s[0]) then 0
    else
      var k := FirstCapital(s[1..]);
      if k == -1 then -1 else k + 1
  }

  /**
   * `FirstCapital` is -1 exactly when no character is a capital, and
   * otherwise the smallest index of a capital.
   */
  lemma {:induction false} FirstCapitalSpec(s: string)
    ensures var i := FirstCapital(s);
      && (i == -1 <==> forall j :: 0 <= j < |s| ==> !IsUpper(s[j]))
      && (0 <= i ==> IsUpper(s[i]) && forall j :: 0 <= j < i ==> !IsUpper(s[j]))
  {
    if s != [] && !IsUpper(s[0]) {
      FirstCapitalSpec(s[1..]);
      assert forall j :: 1 <= j < |s| ==> s[j] == s[1..][j - 1];
    }
  }

  /** `find_first_capital`: a scan that returns at the first capital. */
  method FindFirstCapital(text: string) returns (i: int)
    ensures i == FirstCapital(text)
  {
    FirstCapitalSpec(text);
    for k := 0 to |text|
      invariant forall j :: 0 <= j < k ==> !IsUpper(text[j])
    {
      if IsUpper(text[k]) {
        return k;
      }
    }
    return -1;
  }

  /** A capital with none before it is the first capital. */
  lemma FirstCapitalAt(s: string, i: nat)
    requires i < |s| && IsUpper(s[i])
    requires forall j :: 0 <= j < i ==> !IsUpper(s[j])
    ensures FirstCapital(s) == i
  {
    FirstCapitalSpec(s);
  }

  // ---------------------------------------------------------------------------
  // ends_with_chapter: `re.search(r"(Ch. \d+)", line)`
  // ---------------------------------------------------------------------------

  /**
   * The pattern matches at `k`: `C`, `h`, any character but a newline (the
   * unescaped `.`), a space and at least one digit. The parentheses of the
   * pattern are a group, so no bracket is needed in the line.
   */
  predicate CitationAt(line: string, k: nat)
    requires k + 5 <= |line|
  {
    line[k] == 'C' && line[k + 1] == 'h' && line[k + 2] != '\n'
    && line[k + 3] == ' ' && IsDigit(line[k + 4])
  }

  /** The unanchored search, started at position `k`. */
  function SearchFrom(line: string, k: nat): bool
    decreases |line| - k
  {
    if k + 5 > |line| then false
    else CitationAt(line, k) || SearchFrom(line, k + 1)
  }

  /**
   * `ends_with_chapter`: despite its name, true iff the pattern matches
   * anywhere in the line (see `EndsWithChapterSpec`).
   */
  function EndsWithChapter(line: string): bool {
    SearchFrom(line, 0)
  }

  lemma {:induction false} SearchFromSpec(line: string, k: nat)
    decreases |line| - k
    ensures SearchFrom(line, k) <==> exists j :: k <= j && j + 5 <= |line| && CitationAt(line, j)
  {
    if k + 5 <= |line| {
      SearchFromSpec(line, k + 1);
    }
  }

  /** The search succeeds iff the pattern matches at some position of the line. */
  lemma EndsWithChapterSpec(line: string)
    ensures EndsWithChapter(line) <==> exists k :: 0 <= k && k + 5 <= |line| && CitationAt(line, k)
  {
    SearchFromSpec(line, 0);
  }

  /** Lines the pattern accepts: with brackets, without them, and a false positive. */
  lemma CitationExamples()
    ensures && EndsWithChapter("(Ch. 1)")
            && EndsWithChapter("Ch. 12 on")
            && EndsWithChapter("Chi 2")
  {
    assert EndsWithChapter("(Ch. 1)") by {
      EndsWithChapterSpec("(Ch. 1)");
      assert CitationAt("(Ch. 1)", 1);
    }
    assert EndsWithChapter("Ch. 12 on") by {
      EndsWithChapterSpec("Ch. 12 on");
      assert CitationAt("Ch. 12 on", 0);
    }
    assert EndsWithChapter("Chi 2") by {
      EndsWithChapterSpec("Chi 2");
      assert CitationAt("Chi 2", 0);
    }
  }

  /** A line the pattern refuses: the space after the third character is required. */
  lemma CitationNeedsSpace()
    ensures !EndsWithChapter("Chapter 3")
  {
    var line := "Chapter 3";
    EndsWithChapterSpec(line);
    forall k | 0 <= k && k + 5 <= |line| ensures !CitationAt(line, k) {
      assert line[k] == 'C' ==> k == 0;
    }
  }

  // ---------------------------------------------------------------------------
  // The opening line of an entry: `line[:i - 1]` and `line[i:]`
  // ---------------------------------------------------------------------------

  /** Python's normalisation of a slice bound `k` against a length `n`. */
  function PyIndex(n: nat, k: int): (r: nat)
    ensures r <= n
  {
    if k < 0 then (if k + n < 0 then 0 else k + n)
    else if k > n then n
    else k
  }

  /** `line[:i - 1]`, the term cut in front of position `i`. */
  function TermBefore(line: string, i: int): string {
    line[..PyIndex(|line|, i - 1)]
  }

  /** `line[i:]`, the definition from position `i` on. */
  function RestFrom(line: string, i: int): string {
    line[PyIndex(|line|, i)..]
  }

  /** The term of an opening line: `line[:i - 1]` with `i` its first capital. */
  function OpeningTerm(line: string): string {
    TermBefore(line, FirstCapital(line))
  }

  /** The start of the definition: `line[i:]` with `i` its first capital. */
  function OpeningRest(line: string): string {
    RestFrom(line, FirstCapital(line))
  }

  /**
   * How an opening line splits at its scan result `i` (`OpeningTerm` and
   * `OpeningRest` take `i` to be `FirstCapital(line)`). With a capital at
   * `i >= 1` the character before it is lost. With a capital at 0 the term is
   * the line minus its last character and the definition is the whole line.
   * Without a capital (-1), Python's negative slices make the term the line
   * minus its last two characters and the definition its last character.
   */
  lemma OpeningSplit(line: string, i: int)
    requires -1 <= i < |line|
    ensures var term, rest := TermBefore(line, i), RestFrom(line, i);
      && (1 <= i ==> term == line[..i - 1] && rest == line[i..])
      && (i == 0 ==> term == line[..|line| - 1] && rest == line)
      && (i == -1 && |line| >= 2 ==> term == line[..|line| - 2] && rest == line[|line| - 1..])
      && (i == -1 && |line| < 2 ==> term == [] && rest == line)
  {
    SliceBounds(|line|, i);
  }

  /** Where the two slice bounds of an opening line land, for a scan result `i`. */
  lemma SliceBounds(n: nat, i: int)
    requires -1 <= i < n
    ensures && (1 <= i ==> PyIndex(n, i - 1) == i - 1 && PyIndex(n, i) == i)
            && (i == 0 ==> PyIndex(n, i - 1) == n - 1 && PyIndex(n, i) == 0)
            && (i == -1 && n >= 2 ==> PyIndex(n, i - 1) == n - 2 && PyIndex(n, i) == n - 1)
            && (i == -1 && n < 2 ==> PyIndex(n, i - 1) == 0 && PyIndex(n, i) == 0)
  {
  }

  /**
   * An opening line written as a lower-case term, one separating character
   * and a capitalised definition: the term comes out whole and the separator
   * is the character the `i - 1` slice drops.
   */
  lemma OpeningDropsSeparator(word: string, sep: char, rest: string)
    requires forall j :: 0 <= j < |word| ==> !IsUpper(word[j])
    requires !IsUpper(sep) && rest != [] && IsUpper(rest[0])
    ensures OpeningTerm(word + [sep] + rest) == word && OpeningRest(word + [sep] + rest) == rest
  {
    var line := word + [sep] + rest;
    FirstCapitalAt(line, |word| + 1);
    assert line[..|word|] == word;
    assert line[|word| + 1..] == rest;
  }

  // ---------------------------------------------------------------------------
  // The segmentation, entry by entry
  // ---------------------------------------------------------------------------

  /** A line that closes an open entry: its sanitized text matches the citation. */
  predicate IsCitationLine(line: string) {
    EndsWithChapter(Sanitize(line))
  }

  /** The index of the first citation line of `lines`, if there is one. */
  function FirstCitation(lines: seq<string>): (r: Option<nat>)
    ensures r.Some? ==> r.value < |lines|
  {
    if lines == [] then None
    else if IsCitationLine(lines[0]) then Some(0)
    else match FirstCitation(lines[1..])
      case None => None
      case Some(j) => Some(j + 1)
  }

  /** `FirstCitation` finds the first citation line, and finds none only when there is none. */
  lemma {:induction false} FirstCitationSpec(lines: seq<string>)
    ensures var r := FirstCitation(lines);
      && (r.Some? ==> IsCitationLine(lines[r.value]) && forall j :: 0 <= j < r.value ==> !IsCitationLine(lines[j]))
      && (r.None? <==> forall j :: 0 <= j < |lines| ==> !IsCitationLine(lines[j]))
  {
    if lines != [] && !IsCitationLine(lines[0]) {
      FirstCitationSpec(lines[1..]);
      assert forall j :: 1 <= j < |lines| ==> lines[j] == lines[1..][j - 1];
    }
  }

  /** A citation line with none before it is the first citation line. */
  lemma {:induction false} FirstCitationAt(lines: seq<string>, i: nat)
    requires i < |lines| && IsCitationLine(lines[i])
    requires forall j :: 0 <= j < i ==> !IsCitationLine(lines[j])
    ensures FirstCitation(lines) == Some(i)
  {
    if i > 0 {
      assert !IsCitationLine(lines[0]);
      var tail := lines[1..];
      assert tail[i - 1] == lines[i];
      forall j | 0 <= j < i - 1 ensures !IsCitationLine(tail[j]) {
        assert tail[j] == lines[j + 1];
      }
      FirstCitationAt(tail, i - 1);
    }
  }

  /**
   * What the lines after an opening line add to the definition: a space and
   * the sanitized line, for every line in order. A blank line still adds its
   * space.
   */
  function Continuation(lines: seq<string>): string {
    if lines == [] then "" else " " + Sanitize(lines[0]) + Continuation(lines[1..])
  }

  /**
   * The entries of `lines`, read while no entry is open. The first line opens
   * an entry whatever it holds, even a citation; the entry closes at the
   * first citation line after it, and reading resumes after that line. An
   * entry that never closes is dropped.
   */
  function Segment(lines: seq<string>): seq<Entry>
    decreases |lines|, 1
  {
    if lines == [] then []
    else
      var opening := Sanitize(lines[0]);
      Pending(OpeningTerm(opening), OpeningRest(opening), lines[1..])
  }

  /**
   * The entries of `rest`, read while the entry `term` is open with the
   * definition so far `acc`.
   */
  function Pending(term: string, acc: string, rest: seq<string>): seq<Entry>
    decreases |rest|, 0
  {
    match FirstCitation(rest)
    case None => []
    case Some(j) => [Entry(term, acc + Continuation(rest[..j + 1]))] + Segment(rest[j + 1..])
  }

  /** One step of an open entry: a citation line closes it. */
  lemma PendingCloses(term: string, acc: string, rest: seq<string>)
    requires rest != [] && IsCitationLine(rest[0])
    ensures Pending(term, acc, rest)
         == [Entry(term, acc + " " + Sanitize(rest[0]))] + Segment(rest[1..])
  {
    assert FirstCitation(rest) == Some(0);
    assert Continuation(rest[..1]) == " " + Sanitize(rest[0]) by {
      assert rest[..1][1..] == [];
    }
    assert acc + (" " + Sanitize(rest[0])) == acc + " " + Sanitize(rest[0]);
  }

  /** One step of an open entry: any other line is appended to its definition. */
  lemma PendingExtends(term: string, acc: string, rest: seq<string>)
    requires rest != [] && !IsCitationLine(rest[0])
    ensures Pending(term, acc, rest) == Pending(term, acc + " " + Sanitize(rest[0]), rest[1..])
  {
    var tail := rest[1..];
    match FirstCitation(tail)
    case None =>
      assert FirstCitation(rest).None?;
    case Some(j) =>
      assert FirstCitation(rest) == Some(j + 1);
      ContinuationStep(rest, j + 2);
      var line, more := Sanitize(rest[0]), Continuation(tail[..j + 1]);
      assert acc + (" " + line + more) == acc + (" " + line) + more;
      assert acc + (" " + line) == acc + " " + line;
      assert rest[j + 2..] == tail[j + 1..];
  }

  /** The continuation of the first `n` lines starts with the first of them. */
  lemma ContinuationStep(lines: seq<string>, n: nat)
    requires 1 <= n <= |lines|
    ensures Continuation(lines[..n]) == " " + Sanitize(lines[0]) + Continuation(lines[1..][..n - 1])
  {
    assert lines[..n][1..] == lines[1..][..n - 1];
  }

  /** An entry block: opening line, non-citation lines, one closing citation line. */
  predicate IsBlock(block: seq<string>) {
    && |block| >= 2
    && IsCitationLine(block[|block| - 1])
    && forall j :: 1 <= j < |block| - 1 ==> !IsCitationLine(block[j])
  }

  /** The entry an entry block stands for. */
  function BlockEntry(block: seq<string>): Entry
    requires IsBlock(block)
  {
    var opening := Sanitize(block[0]);
    Entry(OpeningTerm(opening), OpeningRest(opening) + Continuation(block[1..]))
  }

  /**
   * An entry block (an opening line, lines without a citation, and a citation
   * line) becomes exactly one entry, and reading resumes after the block.
   */
  lemma {:induction false} SegmentBlock(block: seq<string>, more: seq<string>)
    requires IsBlock(block)
    ensures Segment(block + more)
         == [BlockEntry(block)] + Segment(more)
  {
    var lines := block + more;
    var rest := lines[1..];
    assert FirstCitation(rest) == Some(|block| - 2) by {
      assert rest[|block| - 2] == block[|block| - 1];
      forall m | 0 <= m < |block| - 2 ensures !IsCitationLine(rest[m]) {
        assert rest[m] == block[m + 1];
      }
      FirstCitationAt(rest, |block| - 2);
    }
    assert lines[0] == block[0];
    assert rest[..|block| - 1] == block[1..];
    assert rest[|block| - 1..] == more;
  }

  /** The blocks written one after the other. */
  function Concat(blocks: seq<seq<string>>): seq<string> {
    if blocks == [] then [] else blocks[0] + Concat(blocks[1..])
  }

  /**
   * A text made of N entry blocks yields exactly N entries, one per block, in
   * the order of the text.
   */
  lemma {:induction false} SegmentBlocks(blocks: seq<seq<string>>)
    requires forall k :: 0 <= k < |blocks| ==> IsBlock(blocks[k])
    ensures |Segment(Concat(blocks))| == |blocks|
      && forall k :: 0 <= k < |blocks| ==> Segment(Concat(blocks))[k] == BlockEntry(blocks[k])
  {
    if blocks != [] {
      SegmentBlock(blocks[0], Concat(blocks[1..]));
      SegmentBlocks(blocks[1..]);
    }
  }

  /**
   * With no citation line after the first line, nothing is emitted: the
   * opening line is never tested, and an entry without a closing line is lost.
   */
  lemma NoClosingNoEntry(lines: seq<string>)
    requires forall j :: 1 <= j < |lines| ==> !IsCitationLine(lines[j])
    ensures Segment(lines) == []
  {
    if lines != [] {
      var rest := lines[1..];
      forall j | 0 <= j < |rest| ensures !IsCitationLine(rest[j]) {
        assert rest[j] == lines[j + 1];
      }
      FirstCitationSpec(rest);
    }
  }

  /**
   * Entry blocks followed by a tail with no citation line after its first
   * line: one entry per block, in order, and the unclosed tail adds nothing.
   * The number of rows is the number of closing citation lines.
   */
  lemma {:induction false} SegmentBlocksThenTail(blocks: seq<seq<string>>, tail: seq<string>)
    requires forall k :: 0 <= k < |blocks| ==> IsBlock(blocks[k])
    requires forall j :: 1 <= j < |tail| ==> !IsCitationLine(tail[j])
    ensures |Segment(Concat(blocks) + tail)| == |blocks|
      && forall k :: 0 <= k < |blocks| ==> Segment(Concat(blocks) + tail)[k] == BlockEntry(blocks[k])
  {
    if blocks == [] {
      assert Concat(blocks) + tail == tail;
      NoClosingNoEntry(tail);
    } else {
      assert Concat(blocks) + tail == blocks[0] + (Concat(blocks[1..]) + tail);
      SegmentBlock(blocks[0], Concat(blocks[1..]) + tail);
      SegmentBlocksThenTail(blocks[1..], tail);
    }
  }

  /** Every entry consumes at least two lines. */
  lemma {:induction false} SegmentBound(lines: seq<string>)
    ensures 2 * |Segment(lines)| <= |lines|
    decreases |lines|, 1
  {
    if lines != [] {
      var opening := Sanitize(lines[0]);
      PendingBound(OpeningTerm(opening), OpeningRest(opening), lines[1..]);
    }
  }

  lemma {:induction false} PendingBound(term: string, acc: string, rest: seq<string>)
    ensures 2 * |Pending(term, acc, rest)| <= |rest| + 1
    decreases |rest|, 0
  {
    match FirstCitation(rest)
    case None =>
    case Some(j) => SegmentBound(rest[j + 1..]);
  }

  /**
   * A one-line glossary text whose line carries its own citation: the line
   * only opens an entry, so nothing is emitted.
   */
  lemma OneLineEntryIsLost()
    ensures Segment(["Some term Memory is the retention of information (Ch. 1)"]) == []
  {
  }

  /**
   * The entries still to come from the unread lines `rest`, given the loop's
   * flag, open term and definition so far.
   */
  ghost function Unread(hasTerm: bool, term: string, currentLine: string, rest: seq<string>): seq<Entry> {
    if hasTerm then Pending(term, currentLine, rest) else Segment(rest)
  }

  /**
   * Reading an opening line, whose first capital is at `i`, opens its entry;
   * whatever the closed state held before does not matter.
   */
  lemma OpensEntry(rest: seq<string>, oldTerm: string, oldLine: string, i: int, term: string, currentLine: string)
    requires rest != [] && i == FirstCapital(Sanitize(rest[0]))
    requires term == TermBefore(Sanitize(rest[0]), i) && currentLine == RestFrom(Sanitize(rest[0]), i)
    ensures Unread(false, oldTerm, oldLine, rest) == Unread(true, term, currentLine, rest[1..])
  {
  }

  /** Reading a citation line moves the open entry to the collected rows. */
  lemma ClosesEntry(rest: seq<string>, data: seq<Entry>, term: string, acc: string)
    requires rest != [] && IsCitationLine(rest[0])
    ensures data + Unread(true, term, acc, rest)
         == (data + [Entry(term, acc + " " + Sanitize(rest[0]))]) + Unread(false, term, "", rest[1..])
  {
    PendingCloses(term, acc, rest);
  }

  /**
   * The loop of `text_to_csv` over the lines of the text (`text.splitlines()`),
   * with the flag `hasTerm`, the open entry's `term` and `currentLine`, and
   * the rows collected in `data`. Writing the rows as a table is left out.
   */
  method TextToCsv(lines: seq<string>) returns (data: seq<Entry>)
    ensures data == Segment(lines)
  {
    data := [];
    var term := "";
    var currentLine := "";
    var hasTerm := false;

    for k := 0 to |lines|
      invariant data + Unread(hasTerm, term, currentLine, lines[k..]) == Segment(lines)
    {
      data, hasTerm, term, currentLine := ReadLine(lines[k], data, hasTerm, term, currentLine, lines[k..]);
    }
    assert lines[|lines|..] == [];
  }

  /**
   * One pass of the loop body of `text_to_csv` over `line`, the first of the
   * unread lines `rest`: it opens an entry, closes the open one on a citation
   * line, or extends the open one.
   */
  method ReadLine(line: string, data: seq<Entry>, hasTerm: bool, term: string, currentLine: string, ghost rest: seq<string>)
    returns (data': seq<Entry>, hasTerm': bool, term': string, currentLine': string)
    requires rest != [] && rest[0] == line
    ensures data' + Unread(hasTerm', term', currentLine', rest[1..]) == data + Unread(hasTerm, term, currentLine, rest)
  {
    data', hasTerm', term', currentLine' := data, hasTerm, term, currentLine;
    var sanitizedLine := Sanitize(line);
    if !hasTerm {
      hasTerm' := true;
      var i := FindFirstCapital(sanitizedLine);
      term' := sanitizedLine[..PyIndex(|sanitizedLine|, i - 1)];
      currentLine' := sanitizedLine[PyIndex(|sanitizedLine|, i)..];
      OpensEntry(rest, term, currentLine, i, term', currentLine');
    } else if EndsWithChapter(sanitizedLine) {
      ClosesEntry(rest, data, term, currentLine);
      hasTerm' := false;
      currentLine' := currentLine + " " + sanitizedLine;
      data' := data + [Entry(term, currentLine')];
      currentLine' := "";
    } else {
      PendingExtends(term, currentLine, rest);
      currentLine' := currentLine + " " + sanitizedLine;
    }
  }

}
