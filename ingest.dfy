/**
 * The input side of the Binary-Search program: the quote-aware CSV splitter
 * `splitCSVLine`, the acceptance rule `readFile` applies to the 41 tokens of
 * a row, and `readFile`'s loop that builds a record from every accepted row
 * and adds it to the collection. The file itself is a sequence of lines and
 * `Double.parseDouble` is a parameter.
 */
module Ingest {
  import opened Wrappers
  import opened Text
  import opened Records
  import opened BST
  import opened Collection

  // ------------------------------------------------------------ splitting

  /** The straight double quote and the two typographic ones. */
  predicate IsQuote(c: char) {
    c == '"' || c == '\U{201C}' || c == '\U{201D}'
  }

  /** The splitter's state: the entries closed so far, the current buffer, and the two flags. */
  datatype Scan = Scan(entries: seq<string>, word: string, inQuotes: bool, inEntry: bool)

  const Start := Scan([], [], false, false)

  /** One character of the scan. */
  function Step(s: Scan, c: char): Scan {
    if IsQuote(c) then
      if s.inQuotes then s.(inQuotes := false, inEntry := false)
      else s.(inQuotes := true, inEntry := true)
    else if IsWhitespace(c) then
      if s.inQuotes || s.inEntry then s.(word := s.word + [c]) else s
    else if c == ',' then
      if s.inQuotes then s.(word := s.word + [c])
      else s.(inEntry := false, entries := s.entries + [s.word], word := [])
    else s.(word := s.word + [c], inEntry := true)
  }

  /** The state after scanning `line` from `s`, one character at a time from the left. */
  function Run(s: Scan, line: string): Scan {
    if line == [] then s else Step(Run(s, line[..|line| - 1]), line[|line| - 1])
  }

  /** After the last character: a non-empty buffer becomes the last entry, trimmed. */
  function Finish(s: Scan): seq<string> {
    if s.word != [] then s.entries + [Trim(s.word)] else s.entries
  }

  /** The entries `splitCSVLine` returns for `line`. */
  function Split(line: string): seq<string> {
    Finish(Run(Start, line))
  }

  /** `splitCSVLine`: the character loop with its two flags and its buffer. */
  method SplitCSVLine(textLine: string) returns (entries: seq<string>)
    ensures entries == Split(textLine)
  {
    entries := [];
    var nextWord: string := [];
    var insideQuotes := false;
    var insideEntry := false;
    for i := 0 to |textLine|
      invariant Scan(entries, nextWord, insideQuotes, insideEntry) == Run(Start, textLine[..i])
    {
      assert textLine[..i + 1][..i] == textLine[..i];
      var nextChar := textLine[i];
      if IsQuote(nextChar) {
        if insideQuotes {
          insideQuotes := false;
          insideEntry := false;
        } else {
          insideQuotes := true;
          insideEntry := true;
        }
      } else if IsWhitespace(nextChar) {
        if insideQuotes || insideEntry {
          nextWord := nextWord + [nextChar];
        }
      } else if nextChar == ',' {
        if insideQuotes {
          nextWord := nextWord + [nextChar];
        } else {
          insideEntry := false;
          entries := entries + [nextWord];
          nextWord := [];
        }
      } else {
        nextWord := nextWord + [nextChar];
        insideEntry := true;
      }
    }
    assert textLine[..|textLine|] == textLine;
    if nextWord != [] {
      entries := entries + [Trim(nextWord)];
    }
  }

  /** Scanning `a + b` is scanning `a` and then `b`. */
  lemma {:induction false} RunAppend(s: Scan, a: string, b: string)
    ensures Run(s, a + b) == Run(Run(s, a), b)
  {
    if b == [] {
      assert a + b == a;
    } else {
      RunAppend(s, a, b[..|b| - 1]);
      assert (a + b)[..|a + b| - 1] == a + b[..|b| - 1];
    }
  }

  // quotes

  predicate NoQuote(w: string) {
    forall c :: c in w ==> !IsQuote(c)
  }

  predicate QuoteFree(s: Scan) {
    NoQuote(s.word) && forall k :: 0 <= k < |s.entries| ==> NoQuote(s.entries[k])
  }

  /** A quote character only flips the flags; it never reaches the buffer. */
  lemma {:induction false} RunQuoteFree(line: string)
    ensures QuoteFree(Run(Start, line))
  {
    if line != [] {
      RunQuoteFree(line[..|line| - 1]);
    }
  }

  /** No entry holds a quote character. */
  lemma SplitHasNoQuotes(line: string)
    ensures forall k :: 0 <= k < |Split(line)| ==> NoQuote(Split(line)[k])
  {
    RunQuoteFree(line);
  }

  // counting entries

  /** The number of quote characters in `p`. */
  function QuoteCount(p: string): nat {
    if p == [] then 0 else QuoteCount(p[..|p| - 1]) + (if IsQuote(p[|p| - 1]) then 1 else 0)
  }

  /** The number of commas in `line` preceded by an even number of quote characters. */
  function UnquotedCommas(line: string): nat {
    if line == [] then 0
    else
      var p := line[..|line| - 1];
      UnquotedCommas(p) + (if line[|line| - 1] == ',' && QuoteCount(p) % 2 == 0 then 1 else 0)
  }

  /** The scan is inside quotes after an odd number of quote characters, and has closed one entry per unquoted comma. */
  lemma {:induction false} RunCounts(line: string)
    ensures Run(Start, line).inQuotes <==> QuoteCount(line) % 2 == 1
    ensures |Run(Start, line).entries| == UnquotedCommas(line)
  {
    if line != [] {
      RunCounts(line[..|line| - 1]);
    }
  }

  /** One entry per unquoted comma, and one more when the final buffer is not empty; an empty line gives none. */
  lemma SplitCount(line: string)
    ensures |Split(line)| == UnquotedCommas(line) + (if Run(Start, line).word != [] then 1 else 0)
    ensures line == [] ==> Split(line) == []
  {
    RunCounts(line);
  }

  // whitespace

  /** Whitespace before the first entry is skipped. */
  lemma {:induction false} LeadingWhitespaceSkipped(ws: string)
    requires forall i :: 0 <= i < |ws| ==> IsWhitespace(ws[i]) && !IsQuote(ws[i])
    ensures Run(Start, ws) == Start
  {
    if ws != [] {
      LeadingWhitespaceSkipped(ws[..|ws| - 1]);
    }
  }

  /** A line split after leading whitespace is split as if the whitespace were not there. */
  lemma SplitSkipsLeadingWhitespace(ws: string, line: string)
    requires forall i :: 0 <= i < |ws| ==> IsWhitespace(ws[i]) && !IsQuote(ws[i])
    ensures Split(ws + line) == Split(line)
  {
    RunAppend(Start, ws, line);
    LeadingWhitespaceSkipped(ws);
  }

  /** Scanning one more character is one more step. */
  lemma RunSnoc(s: Scan, p: string, c: char)
    ensures Run(s, p + [c]) == Step(Run(s, p), c)
  {
    assert (p + [c])[..|p|] == p;
  }

  /** Closed entries stay closed: scanning more only appends entries. */
  lemma {:induction false} EntriesGrow(s: Scan, line: string)
    ensures s.entries <= Run(s, line).entries
  {
    if line != [] {
      EntriesGrow(s, line[..|line| - 1]);
    }
  }

  /** Between quotes every character other than a quote goes to the buffer, commas and whitespace included. */
  lemma {:induction false} RunQuoted(s: Scan, w: string)
    requires s.inQuotes && s.inEntry && NoQuote(w)
    ensures Run(s, w) == s.(word := s.word + w)
  {
    if w == [] {
      assert s.word + w == s.word;
    } else {
      var p := w[..|w| - 1];
      assert w[|w| - 1] in w;
      RunQuoted(s, p);
      assert s.word + p + [w[|w| - 1]] == s.word + w;
    }
  }

  /** Whitespace inside an entry is kept. */
  lemma {:induction false} RunWhitespaceInEntry(s: Scan, ws: string)
    requires s.inEntry && forall i :: 0 <= i < |ws| ==> IsWhitespace(ws[i]) && !IsQuote(ws[i])
    ensures Run(s, ws) == s.(word := s.word + ws)
  {
    if ws == [] {
      assert s.word + ws == s.word;
    } else {
      var p := ws[..|ws| - 1];
      RunWhitespaceInEntry(s, p);
      assert s.word + p + [ws[|ws| - 1]] == s.word + ws;
    }
  }

  /**
   * Only the last entry is trimmed: a first entry made of a plain field and
   * trailing whitespace, closed by a comma, keeps the whitespace.
   */
  lemma OnlyLastEntryTrimmed(f: string, ws: string, rest: string)
    requires f != [] && PlainField(f)
    requires forall i :: 0 <= i < |ws| ==> IsWhitespace(ws[i]) && !IsQuote(ws[i])
    ensures |Split(f + ws + [','] + rest)| >= 1 && Split(f + ws + [','] + rest)[0] == f + ws
  {
    RunPlain([], f);
    RunAppend(Start, f, ws);
    RunWhitespaceInEntry(Run(Start, f), ws);
    RunSnoc(Start, f + ws, ',');
    var s := Run(Start, f + ws + [',']);
    assert s.entries == [f + ws];
    RunAppend(Start, f + ws + [','], rest);
    EntriesGrow(s, rest);
  }

  /** The comma is neither a quote nor whitespace, so outside quotes it ends an entry. */
  lemma CommaSeparates()
    ensures !IsQuote(',') && !IsWhitespace(',')
  {
    assert ',' as int == 44;
  }

  /** A quoted first entry keeps its commas and whitespace and loses its quotes. */
  lemma QuotedEntryKept(w: string, rest: string)
    requires NoQuote(w)
    ensures |Split(['"'] + w + ['"', ','] + rest)| >= 1 && Split(['"'] + w + ['"', ','] + rest)[0] == w
  {
    var p1 := ['"'];
    var p2 := p1 + w;
    var p3 := p2 + ['"'];
    var p4 := p3 + [','];
    RunSnoc(Start, [], '"');
    assert [] + ['"'] == p1;
    assert Run(Start, p1) == Scan([], [], true, true);
    RunAppend(Start, p1, w);
    RunQuoted(Run(Start, p1), w);
    assert [] + w == w;
    assert Run(Start, p2) == Scan([], w, true, true);
    RunSnoc(Start, p2, '"');
    assert Run(Start, p3) == Scan([], w, false, false);
    RunSnoc(Start, p3, ',');
    CommaSeparates();
    assert Step(Scan([], w, false, false), ',') == Scan([] + [w], [], false, false);
    assert Run(Start, p4) == Scan([] + [w], [], false, false);
    assert [] + [w] == [w];
    assert p4 == ['"'] + w + ['"', ','];
    RunAppend(Start, p4, rest);
    EntriesGrow(Run(Start, p4), rest);
  }

  // round trip on plain fields

  /** A character the splitter copies as is and that trimming keeps: no quote, comma or whitespace. */
  predicate Plain(c: char) {
    !IsQuote(c) && c != ',' && !IsWhitespace(c) && !IsTrimmable(c)
  }

  predicate PlainField(f: string) {
    forall i :: 0 <= i < |f| ==> Plain(f[i])
  }

  /** The fields separated by commas. */
  function Join(fs: seq<string>): string {
    if fs == [] then []
    else if |fs| == 1 then fs[0]
    else Join(fs[..|fs| - 1]) + [','] + fs[|fs| - 1]
  }

  /** Plain characters after a closed entry go to the buffer and open an entry. */
  lemma {:induction false} RunPlain(entries: seq<string>, w: string)
    requires PlainField(w)
    ensures Run(Scan(entries, [], false, false), w) == Scan(entries, w, false, w != [])
  {
    if w != [] {
      RunPlain(entries, w[..|w| - 1]);
    }
  }

  /** Scanning joined plain fields leaves all but the last closed and the last one in the buffer. */
  lemma {:induction false} RunJoin(fs: seq<string>)
    requires fs != [] && forall k :: 0 <= k < |fs| ==> PlainField(fs[k])
    ensures Run(Start, Join(fs)) == Scan(fs[..|fs| - 1], fs[|fs| - 1], false, fs[|fs| - 1] != [])
  {
    if |fs| == 1 {
      RunPlain([], fs[0]);
      assert fs[..0] == [];
    } else {
      var init, last := fs[..|fs| - 1], fs[|fs| - 1];
      assert forall k :: 0 <= k < |init| ==> init[k] == fs[k];
      RunJoin(init);
      var j := Join(init);
      assert Join(fs) == j + [','] + last;
      RunSnoc(Start, j, ',');
      InitLast(init);
      assert Run(Start, j + [',']) == Scan(init, [], false, false);
      RunAppend(Start, j + [','], last);
      RunPlain(init, last);
    }
  }

  /** A non-empty sequence is its front followed by its last element. */
  lemma InitLast<T>(s: seq<T>)
    requires s != []
    ensures s[..|s| - 1] + [s[|s| - 1]] == s
  {
  }

  /** Splitting plain fields joined by commas gives the fields back when the last one is not empty. */
  lemma SplitJoin(fs: seq<string>)
    requires forall k :: 0 <= k < |fs| ==> PlainField(fs[k])
    requires fs != [] ==> fs[|fs| - 1] != []
    ensures Split(Join(fs)) == fs
  {
    if fs != [] {
      RunJoin(fs);
      TrimOfTrimmed(fs[|fs| - 1]);
      InitLast(fs);
    }
  }

  // ------------------------------------------------------------ row acceptance

  /** The number of entries a data row has. */
  const RowWidth := 41

  /**
   * The checks `readFile` makes before building a record, written as one
   * conjunction: the three integer columns parse, the coordinates parse as
   * doubles, id and diameter are not negative, status and health are in
   * their sets or empty, the zip code has at most five digits, and the
   * borough is one of the five.
   */
  predicate AcceptRow(tokens: seq<string>, isDouble: string -> bool) {
    && |tokens| == RowWidth
    && ParseInt(tokens[0]).Some? && ParseInt(tokens[3]).Some? && ParseInt(tokens[25]).Some?
    && isDouble(tokens[39]) && isDouble(tokens[40])
    && ParseInt(tokens[0]).value >= 0
    && ParseInt(tokens[3]).value >= 0
    && ValidStatus(tokens[6])
    && ValidHealth(tokens[7])
    && 0 <= ParseInt(tokens[25]).value <= 99999
    && ValidBorough(tokens[29])
  }

  /**
   * The body of `readFile`'s loop for one line: `None` when the line does not
   * have 41 entries or a check throws; otherwise the record built from the
   * lower-cased strings.
   */
  function ParseRow(tokens: seq<string>, isDouble: string -> bool): (r: Option<Tree>)
    ensures r.Some? <==> AcceptRow(tokens, isDouble)
    ensures r.Some? ==> r.value.id == ParseInt(tokens[0]).value && r.value.diam == ParseInt(tokens[3]).value
    ensures r.Some? ==> r.value.zip == ParseInt(tokens[25]).value
    ensures r.Some? ==> r.value.species == Lower(tokens[9]) && IsLower(r.value.species)
    ensures r.Some? ==> r.value.status == Some(Lower(tokens[6])) && r.value.health == Some(Lower(tokens[7]))
    ensures r.Some? ==> r.value.boro == Some(Lower(tokens[29])) && Constructed(r.value)
  {
    if |tokens| != RowWidth then None
    else
      var id, dbh, zip := ParseInt(tokens[0]), ParseInt(tokens[3]), ParseInt(tokens[25]);
      if id.None? || dbh.None? || zip.None? || !isDouble(tokens[39]) || !isDouble(tokens[40]) then None
      else if id.value < 0 then None
      else if dbh.value < 0 then None
      else if !ValidStatus(tokens[6]) then None
      else if !ValidHealth(tokens[7]) then None
      else if zip.value < 0 || zip.value > 99999 then None
      else if !ValidBorough(tokens[29]) then None
      else
        LowerKeepsValid(tokens[6], tokens[7], tokens[29]);
        LowerIsLower(tokens[9]);
        Some(NewTree(id.value, dbh.value, Lower(tokens[6]), Lower(tokens[7]), Lower(tokens[9]), zip.value, Lower(tokens[29])))
  }

  /** Lower-casing a valid status, health or borough keeps it valid. */
  lemma LowerKeepsValid(status: string, health: string, boro: string)
    requires ValidStatus(status) && ValidHealth(health) && ValidBorough(boro)
    ensures ValidStatus(Lower(status)) && ValidHealth(Lower(health)) && ValidBorough(Lower(boro))
  {
    LowerIsLower(status);
    LowerIsLower(health);
    LowerIsLower(boro);
    assert Lower([]) == [];
  }

  /** A row with id 0 is accepted, and its record keeps the constructor's default id 0. */
  lemma IdZeroAccepted(tokens: seq<string>, isDouble: string -> bool)
    requires AcceptRow(tokens, isDouble) && ParseInt(tokens[0]) == Some(0)
    ensures ParseRow(tokens, isDouble).Some? && ParseRow(tokens, isDouble).value.id == 0
  {
  }

  /** The record `readFile` builds from one line, if any. */
  function LineRecord(line: string, isDouble: string -> bool): Option<Tree> {
    ParseRow(Split(line), isDouble)
  }

  /** The records built from the accepted lines among `lines`. */
  ghost function AcceptedRecords(lines: seq<string>, isDouble: string -> bool): set<Tree> {
    if lines == [] then {}
    else
      var r := LineRecord(lines[|lines| - 1], isDouble);
      AcceptedRecords(lines[..|lines| - 1], isDouble) + (if r.Some? then {r.value} else {})
  }

  /** Every stored species is lower-case. */
  ghost predicate SpeciesLower(t: BTree<Tree>) {
    forall e :: e in Elements(t) ==> IsLower(e.species)
  }

  /**
   * The stored records after reading some lines: those stored at the start,
   * possibly some of `acc`, and an equal one for every record of `acc`;
   * all with lower-case species.
   */
  ghost predicate Loaded(root: BTree<Tree>, start: set<Tree>, acc: set<Tree>) {
    && SpeciesLower(root)
    && start <= Elements(root) <= start + acc
    && forall t :: t in acc ==> Matches(root, t, CompareTo) != {}
  }

  /**
   * Offering one record to the collection keeps `Loaded`: the record was
   * stored, or an equal one already was, and old matches stay.
   */
  lemma Offered(before: BTree<Tree>, after: BTree<Tree>, start: set<Tree>, acc: set<Tree>, t: Tree)
    requires Loaded(before, start, acc) && IsLower(t.species)
    requires Elements(after) == Elements(before) + {t} || (after == before && Matches(before, t, CompareTo) != {})
    ensures Loaded(after, start, acc + {t})
  {
    if Elements(after) == Elements(before) + {t} {
      assert CompareTo(t, t) == 0;
      assert t in Matches(after, t, CompareTo);
    }
  }

  /**
   * `readFile` over the lines of the file: every line is split, checked and,
   * when accepted, turned into a record and offered to the collection.
   * Afterwards every accepted record has an equal one stored, nothing else
   * was stored, and stored species stay lower-case.
   */
  method ReadFile(treeCollect: TreeCollection, lines: seq<string>, isDouble: string -> bool)
    requires treeCollect.Valid() && SpeciesLower(treeCollect.root)
    modifies treeCollect, treeCollect.boroCount
    ensures treeCollect.Valid() && SpeciesLower(treeCollect.root)
    ensures old(Elements(treeCollect.root)) <= Elements(treeCollect.root)
    ensures Elements(treeCollect.root) <= old(Elements(treeCollect.root)) + AcceptedRecords(lines, isDouble)
    ensures forall t :: t in AcceptedRecords(lines, isDouble) ==> Matches(treeCollect.root, t, CompareTo) != {}
  {
    ghost var start := Elements(treeCollect.root);
    for i := 0 to |lines|
      invariant treeCollect.Valid()
      invariant Loaded(treeCollect.root, start, AcceptedRecords(lines[..i], isDouble))
    {
      assert lines[..i + 1][..i] == lines[..i];
      var treeData := SplitCSVLine(lines[i]);
      if |treeData| != RowWidth {
        continue;
      }
      var row := ParseRow(treeData, isDouble);
      if row.None? {
        continue;
      }
      var treeObject := row.value;
      ghost var before := treeCollect.root;
      var _ := treeCollect.Add(treeObject);
      Offered(before, treeCollect.root, start, AcceptedRecords(lines[..i], isDouble), treeObject);
    }
    assert lines[..|lines|] == lines;
  }
}
