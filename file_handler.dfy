/**
 * The two writers of `FileHandler`: `save_to_txt`, which writes one text
 * block per recognised page, and the story (the list of flowables) that
 * `create_pdf` hands to the PDF renderer.
 */
module FileHandler {
  import opened Wrappers
  import opened PyStr

  /** One recognised page: the `{'filename': ..., 'text': ...}` dictionary. */
  datatype Entry = Entry(filename: string, text: string)

  // ---------------------------------------------------------------------
  // save_to_txt
  // ---------------------------------------------------------------------

  /** Width of the `=` rule drawn above and below each header. */
  const RuleWidth: nat := 50

  /** `'=' * 50`: a line of `RuleWidth` equals signs. */
  function Rule(): string {
    seq(RuleWidth, _ => '=')
  }

  /** The five pieces `save_to_txt` writes for one entry, in write order. */
  function Pieces(e: Entry): (p: seq<string>)
    ensures |p| == 5
  {
    ["\n" + Rule() + "\n", "Source: " + e.filename + "\n", Rule() + "\n\n", e.text, "\n\n"]
  }

  /** The text block of one entry: its pieces, back to back. */
  function Block(e: Entry): string {
    var p := Pieces(e);
    p[0] + p[1] + p[2] + p[3] + p[4]
  }

  /** Characters a block adds around the file name and the text. */
  const BlockOverhead: nat := 115

  lemma BlockLength(e: Entry)
    ensures |Block(e)| == BlockOverhead + |e.filename| + |e.text|
  {
  }

  /** The whole file: the blocks of the entries, in input order. */
  function TxtLayout(es: seq<Entry>): string {
    if es == [] then [] else TxtLayout(es[..|es| - 1]) + Block(es[|es| - 1])
  }

  /** The layout of a concatenation is the concatenation of the layouts. */
  lemma {:induction false} TxtLayoutConcat(a: seq<Entry>, b: seq<Entry>)
    ensures TxtLayout(a + b) == TxtLayout(a) + TxtLayout(b)
  {
    if b == [] {
      assert a + b == a;
    } else {
      var b' := b[..|b| - 1];
      TxtLayoutConcat(a, b');
      assert (a + b)[..|a + b| - 1] == a + b';
      assert (a + b)[|a + b| - 1] == b[|b| - 1];
      LayoutStep(TxtLayout(a), TxtLayout(b'), Block(b[|b| - 1]));
    }
  }

  /** Associativity, stated once so that the blocks stay folded. */
  lemma LayoutStep(x: string, y: string, z: string)
    ensures x + y + z == x + (y + z)
  {
  }

  /** Appending an entry appends exactly its block. */
  lemma TxtLayoutAppend(es: seq<Entry>, e: Entry)
    ensures TxtLayout(es + [e]) == TxtLayout(es) + Block(e)
  {
    TxtLayoutConcat(es, [e]);
    assert TxtLayout([e]) == TxtLayout([]) + Block(e) by {
      assert [e][..0] == [];
    }
  }

  /** Entry `i`'s block stands between the blocks of the entries before and after it. */
  lemma BlockInPlace(es: seq<Entry>, i: nat)
    requires i < |es|
    ensures TxtLayout(es) == TxtLayout(es[..i]) + Block(es[i]) + TxtLayout(es[i + 1..])
  {
    assert es == es[..i] + [es[i]] + es[i + 1..];
    TxtLayoutConcat(es[..i] + [es[i]], es[i + 1..]);
    TxtLayoutAppend(es[..i], es[i]);
  }

  /** Sum over the entries of the lengths of file name and text. */
  function PayloadLength(es: seq<Entry>): nat {
    if es == [] then 0 else PayloadLength(es[..|es| - 1]) + |es[|es| - 1].filename| + |es[|es| - 1].text|
  }

  /** The file is exactly as long as the sum of its blocks. */
  lemma {:induction false} TxtLayoutLength(es: seq<Entry>)
    ensures |TxtLayout(es)| == BlockOverhead * |es| + PayloadLength(es)
  {
    if es != [] {
      TxtLayoutLength(es[..|es| - 1]);
      BlockLength(es[|es| - 1]);
    }
  }

  datatype IoError = WriteFailed

  /**
   * A text file opened for writing. The file system is the environment:
   * `failingWrite` is the number of the write call it rejects, if any.
   */
  class TextFile {
    var content: string
    var writes: nat
    const failingWrite: Option<nat>

    constructor (failingWrite: Option<nat>)
      ensures content == [] && writes == 0 && this.failingWrite == failingWrite
    {
      content := [];
      writes := 0;
      this.failingWrite := failingWrite;
    }

    /** Opening in `'w'` mode truncates the file. */
    method Truncate()
      modifies this
      ensures content == [] && writes == 0
    {
      content := [];
      writes := 0;
    }

    /** `f.write(s)`: appends `s`, unless the file system rejects this call. */
    method Write(s: string) returns (ok: bool)
      modifies this
      ensures ok <==> failingWrite != Some(old(writes))
      ensures writes == old(writes) + 1
      ensures content == if ok then old(content) + s else old(content)
    {
      ok := failingWrite != Some(writes);
      if ok {
        content := content + s;
      }
      writes := writes + 1;
    }
  }

  /** Whether the file system rejects none of the first `n` write calls. */
  predicate NoFailureWithin(failingWrite: Option<nat>, n: nat) {
    failingWrite.None? || failingWrite.value >= n
  }

  /** The first `k` pieces of an entry, as written so far. */
  function PiecesUpTo(e: Entry, k: nat): string
    requires k <= 5
  {
    if k == 0 then [] else PiecesUpTo(e, k - 1) + Pieces(e)[k - 1]
  }

  /** Writing more pieces only extends what is on file. */
  lemma {:induction false} PiecesUpToGrows(e: Entry, k: nat, m: nat)
    requires k <= m <= 5
    ensures PiecesUpTo(e, k) <= PiecesUpTo(e, m)
  {
    if k < m {
      PiecesUpToGrows(e, k, m - 1);
    }
  }

  /** The pieces written so far, spelled out; all five make the block. */
  lemma PiecesUpToBlock(e: Entry)
    ensures var p := Pieces(e);
      && PiecesUpTo(e, 1) == p[0]
      && PiecesUpTo(e, 2) == p[0] + p[1]
      && PiecesUpTo(e, 3) == p[0] + p[1] + p[2]
      && PiecesUpTo(e, 4) == p[0] + p[1] + p[2] + p[3]
      && PiecesUpTo(e, 5) == Block(e)
    ensures |PiecesUpTo(e, 5)| == |PiecesUpTo(e, 4)| + 2
  {
    var p := Pieces(e);
    assert PiecesUpTo(e, 1) == p[0];
    assert PiecesUpTo(e, 2) == p[0] + p[1];
    assert PiecesUpTo(e, 3) == p[0] + p[1] + p[2];
    assert PiecesUpTo(e, 4) == p[0] + p[1] + p[2] + p[3];
  }

  /**
   * When a write fails after the first `i` blocks and `k` pieces of the next
   * one, what is on file is a proper prefix of the full layout.
   */
  lemma PartialWriteIsProperPrefix(entries: seq<Entry>, i: nat, k: nat)
    requires i < |entries| && k < 5
    ensures TxtLayout(entries[..i]) + PiecesUpTo(entries[i], k) <= TxtLayout(entries)
    ensures |TxtLayout(entries[..i]) + PiecesUpTo(entries[i], k)| < |TxtLayout(entries)|
  {
    var e := entries[i];
    var before := TxtLayout(entries[..i]);
    var rest := TxtLayout(entries[i + 1..]);
    BlockInPlace(entries, i);
    PiecesUpToBlock(e);
    PiecesUpToGrows(e, k, 4);
    var part := PiecesUpTo(e, k);
    var whole := PiecesUpTo(e, 5);
    assert whole == PiecesUpTo(e, 4) + "\n\n";
    assert part <= whole;
    assert TxtLayout(entries) == before + whole + rest;
    assert (before + whole + rest)[..|before + part|] == before + part;
  }

  /** One `f.write` of the body: piece `k` of entry `e`, after the pieces before it. */
  method WritePiece(file: TextFile, e: Entry, k: nat, ghost done: string) returns (ok: bool)
    requires k < 5 && file.content == done + PiecesUpTo(e, k)
    modifies file
    ensures ok <==> file.failingWrite != Some(old(file.writes))
    ensures file.writes == old(file.writes) + 1
    ensures file.content == done + PiecesUpTo(e, if ok then k + 1 else k)
  {
    ok := file.Write(Pieces(e)[k]);
  }

  /**
   * The body of the `save_to_txt` loop: the five writes of one entry's
   * block. It stops at the first rejected write, having written the
   * `written` pieces before it.
   */
  method WriteBlock(file: TextFile, content: Entry) returns (ok: bool, ghost written: nat)
    modifies file
    ensures ok <==> !(file.failingWrite.Some? && old(file.writes) <= file.failingWrite.value < old(file.writes) + 5)
    ensures ok ==> file.content == old(file.content) + Block(content) && file.writes == old(file.writes) + 5
    ensures !ok ==> written < 5 && file.failingWrite == Some(old(file.writes) + written)
    ensures !ok ==> file.writes == old(file.writes) + written + 1
    ensures !ok ==> file.content == old(file.content) + PiecesUpTo(content, written)
  {
    ghost var done := file.content;
    written := 0;
    assert done + PiecesUpTo(content, 0) == done;
    ok := WritePiece(file, content, 0, done);
    if !ok { return; }
    written := 1;
    ok := WritePiece(file, content, 1, done);
    if !ok { return; }
    written := 2;
    ok := WritePiece(file, content, 2, done);
    if !ok { return; }
    written := 3;
    ok := WritePiece(file, content, 3, done);
    if !ok { return; }
    written := 4;
    ok := WritePiece(file, content, 4, done);
    if !ok { return; }
    PiecesUpToBlock(content);
  }

  /**
   * `save_to_txt`: truncates the file and writes the blocks of the entries
   * in order. A rejected write is raised again to the caller; the file then
   * holds a proper prefix of the full layout. An empty list leaves an empty
   * file.
   */
  method SaveToTxt(entries: seq<Entry>, file: TextFile) returns (r: Outcome<IoError>)
    modifies file
    ensures r.Pass? <==> NoFailureWithin(file.failingWrite, 5 * |entries|)
    ensures r.Pass? ==> file.content == TxtLayout(entries)
    ensures r.Fail? ==> file.content <= TxtLayout(entries) && |file.content| < |TxtLayout(entries)|
    ensures r.Fail? ==> file.failingWrite.Some? && file.failingWrite.value < 5 * |entries|
    ensures r.Fail? ==> file.writes == file.failingWrite.value + 1
    ensures r.Fail? ==> var n := file.failingWrite.value;
      file.content == TxtLayout(entries[..n / 5]) + PiecesUpTo(entries[n / 5], n % 5)
    ensures entries == [] ==> file.content == []
  {
    file.Truncate();
    var i := 0;
    while i < |entries|
      invariant 0 <= i <= |entries|
      invariant file.content == TxtLayout(entries[..i]) && file.writes == 5 * i
      invariant NoFailureWithin(file.failingWrite, 5 * i)
    {
      var content := entries[i];
      var ok, written := WriteBlock(file, content);
      if !ok {
        PartialWriteIsProperPrefix(entries, i, written);
        assert file.failingWrite.value == 5 * i + written;
        assert file.failingWrite.value / 5 == i && file.failingWrite.value % 5 == written;
        return Fail(WriteFailed);
      }
      assert entries[..i + 1] == entries[..i] + [content];
      TxtLayoutAppend(entries[..i], content);
      i := i + 1;
    }
    assert entries[..i] == entries;
    return Pass;
  }

  // ---------------------------------------------------------------------
  // create_pdf: the story
  // ---------------------------------------------------------------------

  /** A flowable of the PDF story. */
  datatype Item = Title(text: string) | Spacer | Para(text: string) | PageBreak

  /** The lines whose stripped form is not empty, in order. */
  function NonBlank(lines: seq<string>): seq<string> {
    if lines == [] then []
    else
      var last := lines[|lines| - 1];
      NonBlank(lines[..|lines| - 1]) + (if Strip(last) != [] then [last] else [])
  }

  /** Every kept line is a line of the input whose stripped form is not empty. */
  lemma {:induction false} NonBlankSound(lines: seq<string>)
    ensures forall l :: l in NonBlank(lines) ==> l in lines && Strip(l) != []
  {
    if lines != [] {
      var init := lines[..|lines| - 1];
      NonBlankSound(init);
      assert forall l :: l in init ==> l in lines;
    }
  }

  /** Every line whose stripped form is not empty is kept. */
  lemma {:induction false} NonBlankKeeps(lines: seq<string>, l: string)
    requires l in lines && Strip(l) != []
    ensures l in NonBlank(lines)
  {
    var last := lines[|lines| - 1];
    if l != last {
      var init := lines[..|lines| - 1];
      assert lines == init + [last];
      assert l in init;
      NonBlankKeeps(init, l);
    }
  }

  /** The paragraphs of a text: `text.split('\n')` without the blank lines. */
  function Paragraphs(text: string): seq<string> {
    NonBlank(SplitLines(text))
  }

  function ParaItems(ps: seq<string>): (items: seq<Item>)
    ensures |items| == |ps| && forall i :: 0 <= i < |ps| ==> items[i] == Para(ps[i])
  {
    seq(|ps|, i requires 0 <= i < |ps| => Para(ps[i]))
  }

  lemma ParaItemsAppend(ps: seq<string>, extra: seq<string>)
    ensures ParaItems(ps + extra) == ParaItems(ps) + ParaItems(extra)
  {
  }

  /** The items of one entry: its title, one spacer, then its paragraphs. */
  function Section(e: Entry): (items: seq<Item>)
    ensures |items| >= 2 && items[0] == Title("Source: " + e.filename) && items[1] == Spacer
    ensures forall k :: 2 <= k < |items| ==> items[k].Para?
  {
    [Title("Source: " + e.filename), Spacer] + ParaItems(Paragraphs(e.text))
  }

  /** The story: the sections of the entries, separated by page breaks. */
  function Story(es: seq<Entry>): seq<Item> {
    if es == [] then []
    else if |es| == 1 then Section(es[0])
    else Story(es[..|es| - 1]) + [PageBreak] + Section(es[|es| - 1])
  }

  /** The inner loop of `create_pdf`: one paragraph per non-blank line of `text`. */
  method AddParagraphs(start: seq<Item>, text: string) returns (story: seq<Item>)
    ensures story == start + ParaItems(Paragraphs(text))
  {
    story := start;
    var paragraphs := SplitLines(text);
    for j := 0 to |paragraphs|
      invariant story == start + ParaItems(NonBlank(paragraphs[..j]))
    {
      var para := paragraphs[j];
      assert paragraphs[..j + 1][..j] == paragraphs[..j];
      ParaItemsAppend(NonBlank(paragraphs[..j]), if Strip(para) != [] then [para] else []);
      if Strip(para) != [] {
        story := story + [Para(para)];
      }
    }
    assert paragraphs[..|paragraphs|] == paragraphs;
  }

  /**
   * The story loop of `create_pdf`: for each entry a title, a spacer, one
   * paragraph per non-blank line, and a page break after every entry but
   * the last.
   */
  method BuildStory(entries: seq<Entry>) returns (story: seq<Item>)
    ensures story == Story(entries)
    ensures CountBreaks(story) == if entries == [] then 0 else |entries| - 1
    ensures Titles(story) == Sources(entries)
  {
    story := [];
    for i := 0 to |entries|
      invariant story == Story(entries[..i]) + (if 0 < i < |entries| then [PageBreak] else [])
    {
      var content := entries[i];
      ghost var start := story;
      story := story + [Title("Source: " + content.filename)];
      story := story + [Spacer];
      story := AddParagraphs(story, content.text);
      assert story == start + Section(content);
      assert entries[..i + 1][..i] == entries[..i];
      if i < |entries| - 1 {
        story := story + [PageBreak];
      }
    }
    assert entries[..|entries|] == entries;
    StoryBreaks(entries);
    StoryTitles(entries);
  }

  function CountBreaks(items: seq<Item>): nat {
    if items == [] then 0 else CountBreaks(items[..|items| - 1]) + (if items[|items| - 1] == PageBreak then 1 else 0)
  }

  lemma {:induction false} CountBreaksConcat(a: seq<Item>, b: seq<Item>)
    ensures CountBreaks(a + b) == CountBreaks(a) + CountBreaks(b)
  {
    if b != [] {
      CountBreaksConcat(a, b[..|b| - 1]);
      assert (a + b)[..|a + b| - 1] == a + b[..|b| - 1];
    } else {
      assert a + b == a;
    }
  }

  lemma {:induction false} SectionHasNoBreak(items: seq<Item>)
    requires forall k :: 0 <= k < |items| ==> items[k] != PageBreak
    ensures CountBreaks(items) == 0
  {
    if items != [] {
      SectionHasNoBreak(items[..|items| - 1]);
    }
  }

  /**
   * A story of `n` entries holds exactly `max(0, n - 1)` page breaks and,
   * unless empty, neither starts nor ends with one.
   */
  lemma {:induction false} StoryBreaks(es: seq<Entry>)
    ensures CountBreaks(Story(es)) == if es == [] then 0 else |es| - 1
    ensures es != [] ==> Story(es) != [] && Story(es)[0].Title? && Story(es)[|Story(es)| - 1] != PageBreak
  {
    if es != [] {
      var s := Section(es[|es| - 1]);
      SectionHasNoBreak(s);
      if |es| > 1 {
        var init := es[..|es| - 1];
        StoryBreaks(init);
        CountBreaksConcat(Story(init) + [PageBreak], s);
        CountBreaksConcat(Story(init), [PageBreak]);
        assert CountBreaks([PageBreak]) == 1 by {
          assert [PageBreak][..0] == [];
        }
      }
    }
  }

  /** The titles of a story, in order. */
  function Titles(items: seq<Item>): seq<string> {
    if items == [] then []
    else Titles(items[..|items| - 1]) + (if items[|items| - 1].Title? then [items[|items| - 1].text] else [])
  }

  lemma {:induction false} TitlesConcat(a: seq<Item>, b: seq<Item>)
    ensures Titles(a + b) == Titles(a) + Titles(b)
  {
    if b != [] {
      TitlesConcat(a, b[..|b| - 1]);
      assert (a + b)[..|a + b| - 1] == a + b[..|b| - 1];
    } else {
      assert a + b == a;
    }
  }

  lemma {:induction false} NoTitles(items: seq<Item>)
    requires forall k :: 0 <= k < |items| ==> !items[k].Title?
    ensures Titles(items) == []
  {
    if items != [] {
      NoTitles(items[..|items| - 1]);
    }
  }

  lemma SectionTitles(e: Entry)
    ensures Titles(Section(e)) == ["Source: " + e.filename]
  {
    var s := Section(e);
    assert s == [s[0]] + s[1..];
    TitlesConcat([s[0]], s[1..]);
    NoTitles(s[1..]);
    assert Titles([s[0]]) == [s[0].text] by {
      assert [s[0]][..0] == [];
    }
  }

  /** The title of each entry, in input order. */
  function Sources(es: seq<Entry>): (ts: seq<string>)
    ensures |ts| == |es| && forall i :: 0 <= i < |es| ==> ts[i] == "Source: " + es[i].filename
  {
    seq(|es|, i requires 0 <= i < |es| => "Source: " + es[i].filename)
  }

  lemma SourcesAppend(es: seq<Entry>)
    requires es != []
    ensures Sources(es) == Sources(es[..|es| - 1]) + ["Source: " + es[|es| - 1].filename]
  {
  }

  /** The story names the entries' sources once each, in input order. */
  lemma {:induction false} StoryTitles(es: seq<Entry>)
    ensures Titles(Story(es)) == Sources(es)
  {
    if es != [] {
      var last := es[|es| - 1];
      SectionTitles(last);
      SourcesAppend(es);
      if |es| > 1 {
        var init := es[..|es| - 1];
        StoryTitles(init);
        assert Story(es) == Story(init) + [PageBreak] + Section(last);
        TitlesConcat(Story(init) + [PageBreak], Section(last));
        TitlesConcat(Story(init), [PageBreak]);
        NoTitles([PageBreak]);
      } else {
        assert Story(es) == Section(last);
        assert es[..0] == [];
      }
    }
  }

  /**
   * The paragraphs of an entry are exactly its non-blank lines: each one is
   * a line of the text and not blank, and each non-blank line is one of them.
   */
  lemma ParagraphsAreNonBlankLines(text: string, line: string)
    ensures line in Paragraphs(text) <==> line in SplitLines(text) && !AllSpace(line)
    ensures line in Paragraphs(text) ==> '\n' !in line
  {
    StripEmptyIffAllSpace(line);
    NonBlankSound(SplitLines(text));
    if line in SplitLines(text) && Strip(line) != [] {
      NonBlankKeeps(SplitLines(text), line);
    }
  }
}
