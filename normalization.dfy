/**
 * The PO normalizer (`i18n_utils/normalization.py`): every `#: ` reference
 * line is split into one line per reference, the file header becomes a
 * comment block, and the entries follow the metadata entry sorted by
 * `msgid`. polib's rendering of one entry at a wrap width
 * (`POEntry.__unicode__(wrapwidth)`) and `metadata_as_entry()` are
 * parameters.
 */
module Normalization {
  import opened Text
  import opened Sorting
  import opened Catalog

  /** `DEFAULT_WRAPPING_WIDTH` (line 6). */
  const DefaultWrappingWidth: nat := 78

  const ReferencePrefix: string := "#: "

  /** `line.startswith('#: ')`. */
  predicate IsReference(line: string) {
    StartsWith(line, ReferencePrefix)
  }

  /** `'#: {}'.format(occurrence)` for each reference, in order. */
  function ReferenceLines(occurrences: seq<string>): (r: seq<string>)
    ensures |r| == |occurrences|
  {
    seq(|occurrences|, k requires 0 <= k < |occurrences| => ReferencePrefix + occurrences[k])
  }

  lemma ReferenceLinesStep(occurrences: seq<string>, k: nat)
    requires k < |occurrences|
    ensures ReferenceLines(occurrences[..k + 1]) == ReferenceLines(occurrences[..k]) + [ReferencePrefix + occurrences[k]]
  {
  }

  lemma PrefixStep<T>(s: seq<T>, i: nat)
    requires i < |s|
    ensures s[..i + 1] == s[..i] + [s[i]] && s[..i + 1][..i] == s[..i]
  {
  }

  /** The lines one line of the rendered entry becomes (lines 13-18). */
  function LineOutput(line: string): seq<string> {
    if IsReference(line) then ReferenceLines(Split(line[3..], ' ')) else [line]
  }

  /** The lines a sequence of lines becomes, in order. */
  function OnePerLine(lines: seq<string>): seq<string>
    decreases |lines|
  {
    if lines == [] then [] else OnePerLine(lines[..|lines| - 1]) + LineOutput(lines[|lines| - 1])
  }

  /** What `one_occurrence_per_line` returns for `entry_str`. */
  function Normalized(s: string): string {
    Join(OnePerLine(Split(s, '\n')), "\n")
  }

  /** `one_occurrence_per_line` (lines 9-20). */
  method OneOccurrencePerLine(entryStr: string) returns (r: string)
    ensures r == Normalized(entryStr)
  {
    var lines := Split(entryStr, '\n');
    var entryLines: seq<string> := [];
    for i := 0 to |lines|
      invariant entryLines == OnePerLine(lines[..i])
    {
      var line := lines[i];
      PrefixStep(lines, i);
      if StartsWith(line, ReferencePrefix) {
        line := line[3..];
        var occurrences := Split(line, ' ');
        ghost var start := entryLines;
        for k := 0 to |occurrences|
          invariant entryLines == start + ReferenceLines(occurrences[..k])
        {
          ReferenceLinesStep(occurrences, k);
          entryLines := entryLines + [ReferencePrefix + occurrences[k]];
        }
        assert occurrences[..|occurrences|] == occurrences;
      } else {
        entryLines := entryLines + [line];
      }
    }
    assert lines[..|lines|] == lines;
    r := Join(entryLines, "\n");
  }

  // ---------------------------------------------------------------------------
  // What one_occurrence_per_line promises

  /** The lines that are not references, in order. */
  function Plain(lines: seq<string>): (r: seq<string>)
    ensures forall k :: 0 <= k < |r| ==> !IsReference(r[k])
    decreases |lines|
  {
    if lines == [] then []
    else Plain(lines[..|lines| - 1]) + (if IsReference(lines[|lines| - 1]) then [] else [lines[|lines| - 1]])
  }

  lemma {:induction false} PlainAppend(a: seq<string>, b: seq<string>)
    ensures Plain(a + b) == Plain(a) + Plain(b)
    decreases |b|
  {
    if b != [] {
      var init := b[..|b| - 1];
      assert (a + b)[..|a + b| - 1] == a + init;
      PlainAppend(a, init);
    } else {
      assert a + b == a;
    }
  }

  lemma {:induction false} PlainReferences(occurrences: seq<string>)
    ensures Plain(ReferenceLines(occurrences)) == []
    decreases |occurrences|
  {
    if occurrences != [] {
      var r := ReferenceLines(occurrences);
      var init := occurrences[..|occurrences| - 1];
      assert r[..|r| - 1] == ReferenceLines(init);
      PlainReferences(init);
      assert r[|r| - 1][..3] == ReferencePrefix;
    }
  }

  /** Lines that are not references come out unchanged and in their original order. */
  lemma {:induction false} PlainLinesKept(lines: seq<string>)
    ensures Plain(OnePerLine(lines)) == Plain(lines)
    decreases |lines|
  {
    if lines != [] {
      var init, last := lines[..|lines| - 1], lines[|lines| - 1];
      PlainLinesKept(init);
      PlainAppend(OnePerLine(init), LineOutput(last));
      if IsReference(last) {
        PlainReferences(Split(last[3..], ' '));
      } else {
        assert Plain([last]) == Plain([][..0]) + [last];
      }
    }
  }

  /** The spaces after the prefix of every reference line. */
  function ReferenceSpaces(lines: seq<string>): nat
    decreases |lines|
  {
    if lines == [] then 0
    else
      var last := lines[|lines| - 1];
      ReferenceSpaces(lines[..|lines| - 1]) + if IsReference(last) then Count(last[3..], ' ') else 0
  }

  /** Every space after a `#: ` prefix starts a line of its own. */
  lemma {:induction false} LineCount(lines: seq<string>)
    ensures |OnePerLine(lines)| == |lines| + ReferenceSpaces(lines)
    decreases |lines|
  {
    if lines != [] {
      var last := lines[|lines| - 1];
      LineCount(lines[..|lines| - 1]);
      if IsReference(last) {
        SplitLength(last[3..], ' ');
      }
    }
  }

  /** The references of one line, each without its prefix. */
  function Unprefixed(lines: seq<string>): (r: seq<string>)
    requires forall k :: 0 <= k < |lines| ==> |lines[k]| >= 3
    ensures |r| == |lines|
  {
    seq(|lines|, k requires 0 <= k < |lines| => lines[k][3..])
  }

  /**
   * A reference line becomes reference lines holding one reference each,
   * and these, without their prefixes and joined by spaces, give the line
   * back.
   */
  lemma ReferenceLineSplit(line: string)
    requires IsReference(line)
    ensures var r := LineOutput(line);
      && |r| >= 1
      && (forall k :: 0 <= k < |r| ==> IsReference(r[k]) && ' ' !in r[k][3..])
      && ReferencePrefix + Join(Unprefixed(r), " ") == line
  {
    var occurrences := Split(line[3..], ' ');
    var r := LineOutput(line);
    forall k | 0 <= k < |r|
      ensures IsReference(r[k]) && ' ' !in r[k][3..]
    {
      assert r[k] == ReferencePrefix + occurrences[k];
      assert r[k][3..] == occurrences[k];
    }
    assert Unprefixed(r) == occurrences;
    JoinSplit(line[3..], ' ');
    assert line == line[..3] + line[3..];
  }

  /** A line `one_occurrence_per_line` leaves as it is. */
  predicate Settled(line: string) {
    !IsReference(line) || ' ' !in line[3..]
  }

  lemma SettledLine(line: string)
    requires Settled(line)
    ensures LineOutput(line) == [line]
  {
    if IsReference(line) {
      SplitNoSeparator(line[3..], ' ');
      assert line == ReferencePrefix + line[3..];
    }
  }

  lemma OnePerLineSettledStep(lines: seq<string>)
    requires lines != [] && Settled(lines[|lines| - 1])
    requires OnePerLine(lines[..|lines| - 1]) == lines[..|lines| - 1]
    ensures OnePerLine(lines) == lines
  {
    SettledLine(lines[|lines| - 1]);
    LastSplit(lines);
  }

  lemma {:induction false} OnePerLineSettled(lines: seq<string>)
    requires forall k :: 0 <= k < |lines| ==> Settled(lines[k])
    ensures OnePerLine(lines) == lines
    decreases |lines|
  {
    if lines != [] {
      var init := lines[..|lines| - 1];
      assert forall k :: 0 <= k < |init| ==> init[k] == lines[k];
      OnePerLineSettled(init);
      OnePerLineSettledStep(lines);
    }
  }

  /** No piece of `s.split(sep)` holds a character `s` does not hold. */
  lemma {:induction false} SplitPiecesWithout(s: string, sep: char, c: char)
    requires c !in s
    ensures forall k :: 0 <= k < |Split(s, sep)| ==> c !in Split(s, sep)[k]
    decreases |s|
  {
    if s != [] {
      assert c !in s[1..] by { assert forall i :: 0 <= i < |s| - 1 ==> s[1..][i] == s[i + 1]; }
      SplitPiecesWithout(s[1..], sep, c);
    }
  }

  /** Lines that are settled and free of line breaks. */
  predicate Shaped(lines: seq<string>) {
    forall k :: 0 <= k < |lines| ==> Settled(lines[k]) && '\n' !in lines[k]
  }

  lemma ShapedAppend(a: seq<string>, b: seq<string>)
    requires Shaped(a) && Shaped(b)
    ensures Shaped(a + b)
  {
    forall k | 0 <= k < |a + b|
      ensures Settled((a + b)[k]) && '\n' !in (a + b)[k]
    {
      if k >= |a| {
        assert (a + b)[k] == b[k - |a|];
      }
    }
  }

  /** What one line becomes is settled and free of line breaks when the line is. */
  lemma LineOutputShaped(line: string)
    requires '\n' !in line
    ensures Shaped(LineOutput(line))
  {
    if IsReference(line) {
      var out := LineOutput(line);
      assert '\n' !in line[3..];
      ReferenceLineSplit(line);
      var occurrences := Split(line[3..], ' ');
      SplitPiecesWithout(line[3..], ' ', '\n');
      forall k | 0 <= k < |out|
        ensures '\n' !in out[k]
      {
        assert out[k] == ReferencePrefix + occurrences[k];
      }
    }
  }

  /** Every line of the result is settled and free of line breaks when the input lines are free of them. */
  lemma {:induction false} OnePerLineShape(lines: seq<string>)
    requires forall k :: 0 <= k < |lines| ==> '\n' !in lines[k]
    ensures Shaped(OnePerLine(lines))
    decreases |lines|
  {
    if lines != [] {
      var init, last := lines[..|lines| - 1], lines[|lines| - 1];
      assert forall k :: 0 <= k < |init| ==> init[k] == lines[k];
      OnePerLineShape(init);
      LineOutputShaped(last);
      ShapedAppend(OnePerLine(init), LineOutput(last));
    }
  }


  lemma {:induction false} OnePerLineNonEmpty(lines: seq<string>)
    requires |lines| >= 1
    ensures |OnePerLine(lines)| >= 1
  {
    LineCount(lines);
  }

  /** Normalizing a normalized text changes nothing. */
  lemma NormalizedIdempotent(s: string)
    ensures Normalized(Normalized(s)) == Normalized(s)
  {
    var lines := Split(s, '\n');
    var r := OnePerLine(lines);
    OnePerLineShape(lines);
    OnePerLineNonEmpty(lines);
    assert "\n" == ['\n'];
    SplitJoin(r, '\n');
    OnePerLineSettled(r);
  }

  /** `entry_to_unicode` (lines 23-24): the entry as polib renders it, one reference per line. */
  method EntryToUnicode(entry: Entry, wrapwidth: nat, render: (Entry, nat) -> string) returns (r: string)
    ensures r == Normalized(render(entry, wrapwidth))
    ensures Normalized(r) == r
  {
    r := OneOccurrencePerLine(render(entry, wrapwidth));
    NormalizedIdempotent(render(entry, wrapwidth));
  }

  // ---------------------------------------------------------------------------
  // NormalizedPOFile.__unicode__

  /** The comment line of one header line (lines 34-37): `#` before `,` or `:`, `# ` before anything else. */
  function CommentLine(header: string): (r: string)
    ensures |r| >= 1 && r[0] == '#'
    ensures '\n' !in header ==> '\n' !in r
  {
    if |header| >= 1 && (header[0] == ',' || header[0] == ':') then "#" + header else "# " + header
  }

  /** The comment block of the header lines, each comment line ending in a line break. */
  function HeaderComments(headers: seq<string>): string
    decreases |headers|
  {
    if headers == [] then "" else CommentLine(headers[0]) + "\n" + HeaderComments(headers[1..])
  }

  lemma {:induction false} HeaderCommentsSnoc(headers: seq<string>, h: string)
    ensures HeaderComments(headers + [h]) == HeaderComments(headers) + (CommentLine(h) + "\n")
    decreases |headers|
  {
    if headers == [] {
      assert [h][1..] == [];
    } else {
      assert (headers + [h])[1..] == headers[1..] + [h];
      HeaderCommentsSnoc(headers[1..], h);
    }
  }

  function CommentLines(headers: seq<string>): (r: seq<string>)
    ensures |r| == |headers|
  {
    seq(|headers|, k requires 0 <= k < |headers| => CommentLine(headers[k]))
  }

  /** Each header line gives exactly one comment line, and the block ends with a line break. */
  lemma {:induction false} HeaderCommentLines(headers: seq<string>)
    requires forall k :: 0 <= k < |headers| ==> '\n' !in headers[k]
    ensures Split(HeaderComments(headers), '\n') == CommentLines(headers) + [""]
    decreases |headers|
  {
    if headers != [] {
      var first := CommentLine(headers[0]);
      HeaderCommentLines(headers[1..]);
      assert CommentLine(headers[0]) + "\n" + HeaderComments(headers[1..]) == first + ['\n'] + HeaderComments(headers[1..]);
      SplitAtFirst(first, '\n', HeaderComments(headers[1..]));
      assert CommentLines(headers) == [first] + CommentLines(headers[1..]);
    }
  }

  /** `key=lambda e: e.msgid`. */
  predicate MsgidLe(a: Entry, b: Entry) {
    StrLe(a.msgid, b.msgid)
  }

  lemma MsgidLeTotalPreorder()
    ensures TotalPreorder(MsgidLe)
  {
    forall a: Entry, b: Entry ensures MsgidLe(a, b) || MsgidLe(b, a) {
      StrLeTotal(a.msgid, b.msgid);
    }
    forall a: Entry, b: Entry, c: Entry | MsgidLe(a, b) && MsgidLe(b, c) ensures MsgidLe(a, c) {
      StrLeTransitive(a.msgid, b.msgid, c.msgid);
    }
  }

  /** Lines 40-41: the metadata entry, then the file's entries sorted by `msgid`. */
  function FileOrder(metadata: Entry, entries: seq<Entry>): (r: seq<Entry>)
    ensures |r| >= 1 && r[0] == metadata
  {
    [metadata] + StableSort(entries, MsgidLe)
  }

  /** After the metadata entry, the entries are in non-decreasing `msgid` order. */
  lemma FileOrderSorted(metadata: Entry, entries: seq<Entry>)
    ensures Sorted(FileOrder(metadata, entries)[1..], MsgidLe)
  {
    MsgidLeTotalPreorder();
    SortedResult(entries, MsgidLe);
    assert FileOrder(metadata, entries)[1..] == StableSort(entries, MsgidLe);
  }

  /** After the metadata entry come exactly the file's entries. */
  lemma FileOrderPermutation(metadata: Entry, entries: seq<Entry>)
    ensures multiset(FileOrder(metadata, entries)[1..]) == multiset(entries)
  {
    SortIsPermutation(entries, MsgidLe);
    assert FileOrder(metadata, entries)[1..] == StableSort(entries, MsgidLe);
  }

  /** Entries with equal `msgid`s keep the file's order. */
  lemma FileOrderStable(metadata: Entry, entries: seq<Entry>, y: Entry)
    ensures Ties(FileOrder(metadata, entries)[1..], y, MsgidLe) == Ties(entries, y, MsgidLe)
  {
    MsgidLeTotalPreorder();
    SortIsStable(entries, y, MsgidLe);
    assert FileOrder(metadata, entries)[1..] == StableSort(entries, MsgidLe);
  }

  /** Each entry as `entry_to_unicode` renders it at the wrap width. */
  function RenderedEntries(entries: seq<Entry>, wrapwidth: nat, render: (Entry, nat) -> string): (r: seq<string>)
    ensures |r| == |entries|
    decreases |entries|
  {
    if entries == [] then []
    else RenderedEntries(entries[..|entries| - 1], wrapwidth, render) + [Normalized(render(entries[|entries| - 1], wrapwidth))]
  }

  /** Entry `k` is rendered in place `k`, at the file's wrap width. */
  lemma {:induction false} RenderedEntry(entries: seq<Entry>, wrapwidth: nat, render: (Entry, nat) -> string, k: nat)
    requires k < |entries|
    ensures RenderedEntries(entries, wrapwidth, render)[k] == Normalized(render(entries[k], wrapwidth))
    decreases |entries|
  {
    if k < |entries| - 1 {
      RenderedEntry(entries[..|entries| - 1], wrapwidth, render, k);
    }
  }

  /** The text `__unicode__` returns: the comment block, then the rendered entries joined by line breaks. */
  function FileText(header: string, metadata: Entry, entries: seq<Entry>, wrapwidth: nat,
                    render: (Entry, nat) -> string): string
  {
    HeaderComments(Split(header, '\n')) + Join(RenderedEntries(FileOrder(metadata, entries), wrapwidth, render), "\n")
  }

  /** The comment block of the result has one line per header line, and ends with a line break. */
  lemma FileHeaderLines(header: string)
    ensures Split(HeaderComments(Split(header, '\n')), '\n') == CommentLines(Split(header, '\n')) + [""]
  {
    HeaderCommentLines(Split(header, '\n'));
  }

  /** `sep.join(parts)` starts with the first part. */
  lemma JoinStartsWith(parts: seq<string>, sep: string)
    requires |parts| >= 1
    ensures StartsWith(Join(parts, sep), parts[0])
  {
    if |parts| > 1 {
      assert Join(parts, sep) == parts[0] + (sep + Join(parts[1..], sep));
    }
  }

  lemma StartsWithAppend(a: string, b: string, p: string)
    requires StartsWith(b, p)
    ensures StartsWith(a + b, a + p)
  {
    assert (a + b)[..|a + p|] == a + b[..|p|];
  }

  /** The comment block is followed by the metadata entry, rendered first. */
  lemma MetadataFirst(header: string, metadata: Entry, entries: seq<Entry>, wrapwidth: nat,
                      render: (Entry, nat) -> string)
    ensures StartsWith(FileText(header, metadata, entries, wrapwidth, render),
                       HeaderComments(Split(header, '\n')) + Normalized(render(metadata, wrapwidth)))
  {
    var rendered := RenderedEntries(FileOrder(metadata, entries), wrapwidth, render);
    RenderedEntry(FileOrder(metadata, entries), wrapwidth, render, 0);
    JoinStartsWith(rendered, "\n");
    StartsWithAppend(HeaderComments(Split(header, '\n')), Join(rendered, "\n"), rendered[0]);
  }


  /** Lines 32-37: the header lines turned into comment lines, one after another. */
  method HeaderBlock(header: string) returns (meta: string)
    ensures meta == HeaderComments(Split(header, '\n'))
  {
    var headers := Split(header, '\n');
    meta := "";
    for i := 0 to |headers|
      invariant meta == HeaderComments(headers[..i])
    {
      var h := headers[i];
      HeaderCommentsSnoc(headers[..i], h);
      PrefixStep(headers, i);
      if |h| >= 1 && (h[0] == ',' || h[0] == ':') {
        meta := meta + ("#" + h + "\n");
      } else {
        meta := meta + ("# " + h + "\n");
      }
    }
    assert headers[..|headers|] == headers;
  }

  /** Lines 42-43: `entry_to_unicode` on each entry in turn. */
  method RenderAll(entries: seq<Entry>, wrapwidth: nat, render: (Entry, nat) -> string) returns (ret: seq<string>)
    ensures ret == RenderedEntries(entries, wrapwidth, render)
  {
    ret := [];
    for i := 0 to |entries|
      invariant ret == RenderedEntries(entries[..i], wrapwidth, render)
    {
      var text := EntryToUnicode(entries[i], wrapwidth, render);
      PrefixStep(entries, i);
      ret := ret + [text];
    }
    assert entries[..|entries|] == entries;
  }

  /** `NormalizedPOFile.__unicode__` (lines 28-46). */
  method Unicode(header: string, metadata: Entry, entries: seq<Entry>, wrapwidth: nat, render: (Entry, nat) -> string)
    returns (r: string)
    ensures r == FileText(header, metadata, entries, wrapwidth, render)
  {
    var meta := HeaderBlock(header);
    var ordered := [metadata] + StableSort(entries, MsgidLe);
    var ret := RenderAll(ordered, wrapwidth, render);
    r := meta + Join(ret, "\n");
  }
}
