/** Rendering the legal texts: lines are classified one by one and grouped into
    paragraphs and lists. Inline text is left as it is but for its escaping. */
module LegalText {
  import opened Wrappers
  import RangeHeader

  datatype Line =
    | Blank
    | Heading(level: nat, text: string)
    | Rule
    | Banner(text: string)
    | Item(text: string)
    | Text(text: string)

  // ---------- Lines ----------

  function ReplaceCrLf(raw: string): string {
    if raw == "" then ""
    else if "\r\n" <= raw then "\n" + ReplaceCrLf(raw[2..])
    else [raw[0]] + ReplaceCrLf(raw[1..])
  }

  function SplitLines(raw: string): (lines: seq<string>)
    ensures lines != []
  {
    if raw == "" then [""]
    else
      var rest := SplitLines(raw[1..]);
      if raw[0] == '\n' then [""] + rest else [[raw[0]] + rest[0]] + rest[1..]
  }

  function LeadingHashes(s: string): (n: nat)
    ensures n <= |s|
  {
    if s != "" && s[0] == '#' then 1 + LeadingHashes(s[1..]) else 0
  }

  function ParseHeading(trimmed: string): Option<Line> {
    var hashes := LeadingHashes(trimmed);
    if !(1 <= hashes <= 3) then None
    else match RangeHeader.StripPrefix(trimmed[hashes..], " ")
         case None => None
         case Some(rest) => Some(Heading(Min(hashes + 1, 3), rest))
  }

  predicate ContainsDashes(s: string) {
    exists i :: 0 <= i <= |s| - 3 && s[i] == '-' && s[i + 1] == '-' && s[i + 2] == '-'
  }

  function ParseBanner(trimmed: string): Option<Line> {
    match RangeHeader.StripPrefix(trimmed, "---")
    case None => None
    case Some(rest) =>
      if |rest| < 3 || rest[|rest| - 3..] != "---" then None
      else
        var inner := RangeHeader.Trim(rest[..|rest| - 3]);
        if inner == "" || ContainsDashes(inner) then None else Some(Banner(inner))
  }

  function ParseItem(trimmed: string): Option<Line> {
    var marked := if "-" <= trimmed then RangeHeader.StripPrefix(trimmed, "-")
                  else RangeHeader.StripPrefix(trimmed, "*");
    match marked
    case None => None
    case Some(rest) =>
      match RangeHeader.StripPrefix(rest, " ")
      case None => None
      case Some(text) => Some(Item(RangeHeader.Trim(text)))
  }

  predicate AllDashes(s: string) {
    forall i :: 0 <= i < |s| ==> s[i] == '-'
  }

  function Classify(line: string): Line {
    var trimmed := RangeHeader.Trim(line);
    if trimmed == "" then Blank
    else if ParseHeading(trimmed).Some? then ParseHeading(trimmed).value
    else if AllDashes(trimmed) && |trimmed| >= 3 then Rule
    else if ParseBanner(trimmed).Some? then ParseBanner(trimmed).value
    else if ParseItem(trimmed).Some? then ParseItem(trimmed).value
    else Text(trimmed)
  }

  function ClassifyAll(lines: seq<string>): (r: seq<Line>)
    ensures |r| == |lines|
    ensures forall i :: 0 <= i < |lines| ==> r[i] == Classify(lines[i])
  {
    if lines == [] then [] else ClassifyAll(lines[..|lines| - 1]) + [Classify(lines[|lines| - 1])]
  }

  // Which line is what, by its text without the space around it.
  lemma ClassifyExactly(line: string, x: string)
    ensures var t := RangeHeader.Trim(line);
            (Classify(line) == Blank <==> t == "")
            && (Classify(line) == Heading(2, x) <==> t == "# " + x)
            && (Classify(line) == Heading(3, x) <==> t == "## " + x || t == "### " + x)
            && (Classify(line) == Rule <==> |t| >= 3 && AllDashes(t))
            && (Classify(line) == Banner(x) <==>
                  |t| >= 6 && t[..3] == t[|t| - 3..] == "---" && !AllDashes(t) && x == RangeHeader.Trim(t[3..|t| - 3])
                  && x != "" && !ContainsDashes(x))
            && (Classify(line) == Item(x) <==>
                  |t| >= 2 && (t[0] == '-' || t[0] == '*') && t[1] == ' ' && x == RangeHeader.Trim(t[2..]))
  {
    var t := RangeHeader.Trim(line);
    HeadingExactly(t, x);
    BannerExactly(t, x);
    ItemExactly(t, x);
    if |t| >= 3 && AllDashes(t) {
      assert t[0] == '-' && t[1] == '-';
    }
    if |t| >= 6 && t[..3] == "---" {
      assert t[0] == t[..3][0] && t[1] == t[..3][1];
    }
  }

  // Only headings of the levels 2 and 3 come out, and any other text as it is.
  lemma OtherLines(line: string)
    ensures Classify(line).Heading? ==> Classify(line).level == 2 || Classify(line).level == 3
    ensures Classify(line).Text? ==> Classify(line) == Text(RangeHeader.Trim(line))
  {
  }

  lemma HeadingExactly(t: string, x: string)
    ensures ParseHeading(t) == Some(Heading(2, x)) <==> t == "# " + x
    ensures ParseHeading(t) == Some(Heading(3, x)) <==> t == "## " + x || t == "### " + x
    ensures ParseHeading(t).Some? ==> t != "" && t[0] == '#' && ParseHeading(t).value.Heading?
  {
    HashesCounted(t, x, 1);
    HashesCounted(t, x, 2);
    HashesCounted(t, x, 3);
    assert Hashes(1) == "#" && Hashes(2) == "##" && Hashes(3) == "###";
    assert "#" + (" " + x) == "# " + x && "##" + (" " + x) == "## " + x && "###" + (" " + x) == "### " + x;
  }

  function Hashes(n: nat): (s: string)
    ensures |s| == n && forall i :: 0 <= i < n ==> s[i] == '#'
  {
    if n == 0 then "" else ['#'] + Hashes(n - 1)
  }

  // A text starts with h hashes and a space exactly if h of them lead it.
  lemma HashesCounted(t: string, x: string, h: nat)
    requires h > 0
    ensures t == Hashes(h) + (" " + x)
            <==> LeadingHashes(t) == h && h < |t| && t[h] == ' ' && x == t[h + 1..]
  {
    if t == Hashes(h) + (" " + x) {
      HashesJoined(h, x);
    }
    if LeadingHashes(t) == h && h < |t| && t[h] == ' ' {
      HashesSplit(t, h);
    }
  }

  lemma {:induction false} HashesSplit(t: string, h: nat)
    requires LeadingHashes(t) == h && h < |t| && t[h] == ' '
    ensures t == Hashes(h) + (" " + t[h + 1..])
    decreases |t|
  {
    if h == 0 {
      assert t == [t[0]] + t[1..];
    } else {
      HashesSplit(t[1..], h - 1);
      assert t == ['#'] + t[1..] && t[1..][h..] == t[h + 1..];
      Regroup(['#'], Hashes(h - 1), " " + t[h + 1..]);
    }
  }

  lemma {:induction false} HashesJoined(h: nat, x: string)
    ensures var t := Hashes(h) + (" " + x);
            LeadingHashes(t) == h && t[h] == ' ' && t[h + 1..] == x
    decreases h
  {
    var t := Hashes(h) + (" " + x);
    if h == 0 {
      assert t == " " + x;
    } else {
      HashesJoined(h - 1, x);
      assert t[1..] == Hashes(h - 1) + (" " + x) && t[0] == '#';
    }
  }

  lemma BannerExactly(t: string, x: string)
    ensures ParseBanner(t) == Some(Banner(x))
            <==> |t| >= 6 && t[..3] == t[|t| - 3..] == "---" && x == RangeHeader.Trim(t[3..|t| - 3])
                 && x != "" && !ContainsDashes(x)
    ensures ParseBanner(t).Some? ==> |t| >= 6 && t[..3] == "---" && ParseBanner(t).value.Banner?
  {
    if "---" <= t {
      assert t[..3] == "---";
      var rest := t[3..];
      if |rest| >= 3 {
        assert rest[|rest| - 3..] == t[|t| - 3..] && rest[..|rest| - 3] == t[3..|t| - 3];
      }
    }
  }

  lemma ItemExactly(t: string, x: string)
    ensures ParseItem(t) == Some(Item(x))
            <==> |t| >= 2 && (t[0] == '-' || t[0] == '*') && t[1] == ' ' && x == RangeHeader.Trim(t[2..])
    ensures ParseItem(t).Some? ==> ParseItem(t).value.Item?
  {
    if |t| >= 2 && (t[0] == '-' || t[0] == '*') && t[1] == ' ' {
      assert t[1..][1..] == t[2..];
    }
    if ParseItem(t).Some? {
      assert t[1..][1..] == t[2..];
    }
  }

  // The lines are those between line feeds, in order.
  function JoinLines(lines: seq<string>): string
    requires lines != []
  {
    if |lines| == 1 then lines[0] else lines[0] + ("\n" + JoinLines(lines[1..]))
  }

  lemma {:induction false} LinesExactly(raw: string)
    ensures JoinLines(SplitLines(raw)) == raw
    ensures forall i :: 0 <= i < |SplitLines(raw)| ==> '\n' !in SplitLines(raw)[i]
    decreases |raw|
  {
    if raw != "" {
      LinesExactly(raw[1..]);
      var lines, rest := SplitLines(raw), SplitLines(raw[1..]);
      assert raw == [raw[0]] + raw[1..];
      if raw[0] == '\n' {
        assert lines[1..] == rest;
        assert JoinLines(lines) == "" + ("\n" + raw[1..]);
      } else {
        assert lines[1..] == rest[1..];
        if |rest| > 1 {
          Regroup([raw[0]], rest[0], "\n" + JoinLines(rest[1..]));
        }
      }
    }
  }

  // Every carriage return in front of a line feed goes, and nothing else.
  lemma {:induction false} CrLfExactly(text: string, more: string)
    requires '\r' !in text
    ensures ReplaceCrLf(text + more) == text + ReplaceCrLf(more)
    ensures ReplaceCrLf("\r\n" + more) == "\n" + ReplaceCrLf(more)
    ensures !("\n" <= more) ==> ReplaceCrLf("\r" + more) == "\r" + ReplaceCrLf(more)
    decreases |text|
  {
    assert ("\r\n" + more)[2..] == more && ("\r" + more)[1..] == more;
    if !("\n" <= more) {
      assert !("\r\n" <= "\r" + more);
    }
    if text == "" {
      assert text + more == more;
    } else {
      assert (text + more)[1..] == text[1..] + more && text == [text[0]] + text[1..];
      CrLfExactly(text[1..], more);
    }
  }

  // ---------- Blocks ----------

  // One element of the output.
  datatype Piece =
    | Paragraph(lines: seq<string>)
    | ListOpen
    | ListItem(text: string)
    | ListClose
    | Title(line: Line)
    | HorizontalRule

  // Length of the leading run of items, and of plain text lines.
  function ItemRun(lines: seq<Line>): (n: nat)
    ensures n <= |lines| && forall i :: 0 <= i < n ==> lines[i].Item?
    ensures n < |lines| ==> !lines[n].Item?
  {
    if lines != [] && lines[0].Item? then 1 + ItemRun(lines[1..]) else 0
  }

  function TextRun(lines: seq<Line>): (n: nat)
    ensures n <= |lines| && forall i :: 0 <= i < n ==> lines[i].Text?
    ensures n < |lines| ==> !lines[n].Text?
  {
    if lines != [] && lines[0].Text? then 1 + TextRun(lines[1..]) else 0
  }

  function ItemPieces(lines: seq<Line>): seq<Piece>
    requires forall i :: 0 <= i < |lines| ==> lines[i].Item?
  {
    if lines == [] then [] else [ListItem(lines[0].text)] + ItemPieces(lines[1..])
  }

  function Texts(lines: seq<Line>): (texts: seq<string>)
    requires forall i :: 0 <= i < |lines| ==> lines[i].Text?
    ensures |texts| == |lines|
  {
    if lines == [] then [] else [lines[0].text] + Texts(lines[1..])
  }

  /** The document of a text: each longest run of items is one list, each longest
      run of plain lines one paragraph, and every other line stands alone. */
  function Document(lines: seq<Line>): seq<Piece>
    decreases |lines|, 1
  {
    if lines == [] then []
    else
      match lines[0]
      case Blank => Document(lines[1..])
      case Rule => [HorizontalRule] + Document(lines[1..])
      case Heading(_, _) => [Title(lines[0])] + Document(lines[1..])
      case Banner(_) => [Title(lines[0])] + Document(lines[1..])
      case Item(_) => [ListOpen] + InList(lines)
      case Text(_) => InParagraph([], lines)
  }

  // The rest of the document inside an open list, and after `para` lines of an
  // open paragraph.
  function InList(lines: seq<Line>): seq<Piece>
    decreases |lines|, if lines != [] && lines[0].Item? then 0 else 2
  {
    var n := ItemRun(lines);
    ItemPieces(lines[..n]) + [ListClose] + (if n == 0 then Document(lines) else Document(lines[n..]))
  }

  function InParagraph(para: seq<string>, lines: seq<Line>): seq<Piece>
    decreases |lines|, if lines != [] && lines[0].Text? then 0 else 2
  {
    var n := TextRun(lines);
    [Paragraph(para + Texts(lines[..n]))] + (if n == 0 then Document(lines) else Document(lines[n..]))
  }

  lemma NoItem(lines: seq<Line>)
    requires lines == [] || !lines[0].Item?
    ensures InList(lines) == [ListClose] + Document(lines)
  {
    assert lines[..0] == [];
  }

  lemma NoText(para: seq<string>, lines: seq<Line>)
    requires lines == [] || !lines[0].Text?
    ensures InParagraph(para, lines) == [Paragraph(para)] + Document(lines)
  {
    assert lines[..0] == [] && para + [] == para;
  }

  lemma DropFirst(lines: seq<Line>, n: nat)
    requires 1 <= n <= |lines|
    ensures lines[..n][1..] == lines[1..][..n - 1] && lines[n..] == lines[1..][n - 1..]
    ensures lines[1..][0..] == lines[1..]
  {
  }

  lemma {:induction false} ItemInList(lines: seq<Line>)
    requires lines != [] && lines[0].Item?
    ensures InList(lines) == [ListItem(lines[0].text)] + InList(lines[1..])
  {
    var n, rest := ItemRun(lines), lines[1..];
    DropFirst(lines, n);
    var items, tail := ItemPieces(rest[..n - 1]), [ListClose] + Document(rest[n - 1..]);
    assert ItemPieces(lines[..n]) == [ListItem(lines[0].text)] + items;
    assert InList(rest) == items + tail;
  }

  lemma TextInParagraph(para: seq<string>, lines: seq<Line>)
    requires lines != [] && lines[0].Text?
    ensures InParagraph(para, lines) == InParagraph(para + [lines[0].text], lines[1..])
  {
    var n, rest := TextRun(lines), lines[1..];
    DropFirst(lines, n);
    assert Texts(lines[..n]) == [lines[0].text] + Texts(rest[..n - 1]);
    Regroup(para, [lines[0].text], Texts(rest[..n - 1]));
  }

  // ---------- The loop ----------

  // What is still to come while a list or a paragraph may be open.
  function Pending(inList: bool, para: seq<string>, lines: seq<Line>): seq<Piece> {
    if inList then InList(lines) else if para != [] then InParagraph(para, lines) else Document(lines)
  }

  // What closing an open list or paragraph puts out.
  function Closed(inList: bool, para: seq<string>): seq<Piece> {
    if inList then [ListClose] else if para != [] then [Paragraph(para)] else []
  }

  lemma ClosingIsPending(inList: bool, para: seq<string>, lines: seq<Line>)
    requires lines == [] || (!lines[0].Item? && !lines[0].Text?)
    ensures Pending(inList, para, lines) == Closed(inList, para) + Document(lines)
  {
    NoItem(lines);
    NoText(para, lines);
  }

  function StandsAlone(line: Line): seq<Piece> {
    if line.Blank? then [] else if line.Rule? then [HorizontalRule] else [Title(line)]
  }

  // What one line puts out.
  function Emitted(line: Line, inList: bool, para: seq<string>): seq<Piece> {
    if line.Item? then (if inList then [] else Closed(false, para) + [ListOpen]) + [ListItem(line.text)]
    else if line.Text? then Closed(inList, [])
    else Closed(inList, para) + StandsAlone(line)
  }

  // The paragraph left open after a line.
  function Collected(line: Line, para: seq<string>): seq<string> {
    if line.Text? then para + [line.text] else []
  }

  // What a line puts out and what it leaves pending is what was pending before.
  lemma LineIsPending(inList: bool, para: seq<string>, lines: seq<Line>)
    requires lines != [] && !(inList && para != [])
    ensures Pending(inList, para, lines)
            == Emitted(lines[0], inList, para)
               + Pending(lines[0].Item?, Collected(lines[0], para), lines[1..])
  {
    var line, rest := lines[0], lines[1..];
    if line.Item? {
      ItemInList(lines);
      if !inList {
        ListOpens(para, lines);
      }
    } else if line.Text? {
      TextInParagraph(para, lines);
      NoItem(lines);
      assert [] + [line.text] == [line.text];
    } else {
      ClosingIsPending(inList, para, lines);
      assert Document(lines) == StandsAlone(line) + Document(rest);
    }
  }

  lemma ListOpens(para: seq<string>, lines: seq<Line>)
    requires lines != [] && lines[0].Item?
    ensures Pending(false, para, lines) == Closed(false, para) + [ListOpen] + InList(lines)
  {
    NoText(para, lines);
  }

  method CloseParagraph(out: seq<Piece>, para: seq<string>) returns (out': seq<Piece>)
    ensures out' == out + Closed(false, para)
  {
    out' := if para != [] then out + [Paragraph(para)] else out;
  }

  method CloseList(out: seq<Piece>, inList: bool) returns (out': seq<Piece>)
    ensures out' == out + Closed(inList, [])
  {
    out' := if inList then out + [ListClose] else out;
  }

  // One turn of the loop.
  method RenderLine(line: Line, out: seq<Piece>, inList: bool, para: seq<string>)
    returns (out': seq<Piece>, inList': bool, para': seq<string>)
    requires !(inList && para != [])
    ensures out' == out + Emitted(line, inList, para)
    ensures inList' == line.Item? && para' == Collected(line, para)
  {
    out', inList', para' := out, inList, para;
    if line.Item? {
      out' := CloseParagraph(out', para);
      para' := [];
      if !inList {
        out' := out' + [ListOpen];
        inList' := true;
      }
      out' := out' + [ListItem(line.text)];
    } else if line.Text? {
      out' := CloseList(out', inList);
      inList' := false;
      para' := para + [line.text];
    } else {
      out' := CloseList(out', inList);
      inList' := false;
      out' := CloseParagraph(out', para);
      para' := [];
      if line.Rule? {
        out' := out' + [HorizontalRule];
      } else if !line.Blank? {
        out' := out' + [Title(line)];
      }
    }
  }

  // `out` and what is pending at line i make up the document.
  ghost predicate Rendered(doc: seq<Piece>, out: seq<Piece>, inList: bool, para: seq<string>, all: seq<Line>, i: nat)
    requires i <= |all|
  {
    !(inList && para != []) && doc == out + Pending(inList, para, all[i..])
  }

  lemma RenderedStart(all: seq<Line>)
    ensures Rendered(Document(all), [], false, [], all, 0)
  {
    assert all[0..] == all;
  }

  lemma RenderedLine(doc: seq<Piece>, out: seq<Piece>, inList: bool, para: seq<string>, all: seq<Line>, i: nat)
    requires i < |all| && Rendered(doc, out, inList, para, all, i)
    ensures Rendered(doc, out + Emitted(all[i], inList, para), all[i].Item?, Collected(all[i], para), all, i + 1)
  {
    assert all[i..][1..] == all[i + 1..] && all[i..][0] == all[i];
    LineIsPending(inList, para, all[i..]);
  }

  lemma RenderedEnd(doc: seq<Piece>, out: seq<Piece>, inList: bool, para: seq<string>, all: seq<Line>)
    requires Rendered(doc, out, inList, para, all, |all|)
    ensures doc == out + Closed(inList, para)
  {
    assert all[|all|..] == [];
    ClosingIsPending(inList, para, []);
  }

  /** The rendering loop over the lines of a text. */
  method RenderLines(lines: seq<string>) returns (out: seq<Piece>)
    ensures out == Document(ClassifyAll(lines))
  {
    out := [];
    var inList, para: seq<string> := false, [];
    ghost var all := ClassifyAll(lines);
    ghost var doc := Document(all);
    RenderedStart(all);
    for i := 0 to |lines|
      invariant Rendered(doc, out, inList, para, all, i)
    {
      RenderedLine(doc, out, inList, para, all, i);
      out, inList, para := RenderLine(Classify(lines[i]), out, inList, para);
    }
    RenderedEnd(doc, out, inList, para, all);
    out := CloseList(out, inList);
    out := CloseParagraph(out, para);
  }

  /** Whatever the text, the output is well nested and holds every line of it. */
  method RenderTxtToHtml(raw: string) returns (out: seq<Piece>)
    ensures out == Document(ClassifyAll(SplitLines(ReplaceCrLf(raw))))
    ensures WellNested(false, out)
    ensures Source(out) == NonBlank(ClassifyAll(SplitLines(ReplaceCrLf(raw))))
  {
    var lines := SplitLines(ReplaceCrLf(raw));
    out := RenderLines(lines);
    DocumentIsWellNested(ClassifyAll(lines));
    DocumentKeepsLines(ClassifyAll(lines));
  }

  // ---------- What a document is like ----------

  // Lists open and close alternately, items stand inside a list, and everything
  // else outside; `inList` says whether one is open in front of the pieces.
  predicate WellNested(inList: bool, pieces: seq<Piece>)
    decreases |pieces|
  {
    if pieces == [] then !inList
    else
      match pieces[0]
      case ListOpen => !inList && pieces[1..] != [] && pieces[1].ListItem? && WellNested(true, pieces[1..])
      case ListItem(_) => inList && WellNested(true, pieces[1..])
      case ListClose => inList && WellNested(false, pieces[1..])
      case Paragraph(lines) => !inList && lines != [] && WellNested(false, pieces[1..])
      case Title(_) => !inList && WellNested(false, pieces[1..])
      case HorizontalRule => !inList && WellNested(false, pieces[1..])
  }

  lemma {:induction false} DocumentIsWellNested(lines: seq<Line>)
    ensures WellNested(false, Document(lines))
    decreases |lines|, 2
  {
    if lines != [] {
      var doc := Document(lines);
      if lines[0].Item? {
        ItemInList(lines);
        ListIsWellNested(lines);
        assert doc[1..] == InList(lines) && doc[1] == ListItem(lines[0].text);
      } else if lines[0].Text? {
        ParagraphIsWellNested([], lines);
      } else {
        DocumentIsWellNested(lines[1..]);
        if !lines[0].Blank? {
          assert doc[1..] == Document(lines[1..]);
        }
      }
    }
  }

  lemma {:induction false} ListIsWellNested(lines: seq<Line>)
    ensures WellNested(true, InList(lines))
    decreases |lines|, if lines != [] && lines[0].Item? then 0 else 3
  {
    if lines != [] && lines[0].Item? {
      ItemInList(lines);
      ListIsWellNested(lines[1..]);
      assert InList(lines)[1..] == InList(lines[1..]);
    } else {
      NoItem(lines);
      DocumentIsWellNested(lines);
      assert InList(lines)[1..] == Document(lines);
    }
  }

  lemma {:induction false} ParagraphIsWellNested(para: seq<string>, lines: seq<Line>)
    requires para != [] || (lines != [] && lines[0].Text?)
    ensures WellNested(false, InParagraph(para, lines))
    decreases |lines|, if lines != [] && lines[0].Text? then 0 else 3
  {
    if lines != [] && lines[0].Text? {
      TextInParagraph(para, lines);
      ParagraphIsWellNested(para + [lines[0].text], lines[1..]);
    } else {
      NoText(para, lines);
      DocumentIsWellNested(lines);
      assert InParagraph(para, lines)[1..] == Document(lines);
    }
  }

  // Of which pieces a document is made: one list for each longest run of items, one
  // paragraph for each longest run of plain lines, and a piece of its own for any
  // other line but a blank one.
  lemma {:induction false} RunOfItems(items: seq<Line>, rest: seq<Line>)
    requires items != [] && forall i :: 0 <= i < |items| ==> items[i].Item?
    requires rest == [] || !rest[0].Item?
    ensures Document(items + rest) == [ListOpen] + ItemPieces(items) + [ListClose] + Document(rest)
  {
    RestOfItems(items, rest);
    assert Document(items + rest) == [ListOpen] + InList(items + rest);
    Regroup([ListOpen], ItemPieces(items), [ListClose] + Document(rest));
  }

  lemma {:induction false} RestOfItems(items: seq<Line>, rest: seq<Line>)
    requires forall i :: 0 <= i < |items| ==> items[i].Item?
    requires rest == [] || !rest[0].Item?
    ensures InList(items + rest) == ItemPieces(items) + ([ListClose] + Document(rest))
    decreases |items|
  {
    if items == [] {
      assert items + rest == rest;
      NoItem(rest);
      assert ItemPieces(items) == [];
    } else {
      assert (items + rest)[1..] == items[1..] + rest;
      ItemInList(items + rest);
      RestOfItems(items[1..], rest);
      Regroup([ListItem(items[0].text)], ItemPieces(items[1..]), [ListClose] + Document(rest));
    }
  }

  lemma RunOfTexts(texts: seq<Line>, rest: seq<Line>)
    requires texts != [] && forall i :: 0 <= i < |texts| ==> texts[i].Text?
    requires rest == [] || !rest[0].Text?
    ensures Document(texts + rest) == [Paragraph(Texts(texts))] + Document(rest)
  {
    RestOfTexts([], texts, rest);
    assert [] + Texts(texts) == Texts(texts);
  }

  lemma {:induction false} RestOfTexts(para: seq<string>, texts: seq<Line>, rest: seq<Line>)
    requires forall i :: 0 <= i < |texts| ==> texts[i].Text?
    requires rest == [] || !rest[0].Text?
    ensures InParagraph(para, texts + rest) == [Paragraph(para + Texts(texts))] + Document(rest)
    decreases |texts|
  {
    if texts == [] {
      assert texts + rest == rest && para + Texts(texts) == para;
      NoText(para, rest);
    } else {
      assert (texts + rest)[1..] == texts[1..] + rest;
      TextInParagraph(para, texts + rest);
      RestOfTexts(para + [texts[0].text], texts[1..], rest);
      Regroup(para, [texts[0].text], Texts(texts[1..]));
    }
  }

  lemma LineAlone(line: Line, rest: seq<Line>)
    requires !line.Item? && !line.Text?
    ensures Document([line] + rest)
            == (if line == Blank then [] else if line == Rule then [HorizontalRule] else [Title(line)]) + Document(rest)
    ensures Document([]) == []
  {
    assert ([line] + rest)[1..] == rest;
  }

  lemma {:induction false} PiecesOfItems(items: seq<Line>)
    requires forall i :: 0 <= i < |items| ==> items[i].Item?
    ensures |ItemPieces(items)| == |items|
            && forall i :: 0 <= i < |items| ==> ItemPieces(items)[i] == ListItem(items[i].text)
    decreases |items|
  {
    if items != [] {
      PiecesOfItems(items[1..]);
      forall i | 0 <= i < |items| ensures ItemPieces(items)[i] == ListItem(items[i].text) {
        assert i > 0 ==> items[1..][i - 1] == items[i];
      }
    }
  }

  lemma {:induction false} TextsOfLines(lines: seq<Line>)
    requires forall i :: 0 <= i < |lines| ==> lines[i].Text?
    ensures forall i :: 0 <= i < |lines| ==> Texts(lines)[i] == lines[i].text
    decreases |lines|
  {
    if lines != [] {
      TextsOfLines(lines[1..]);
      forall i | 0 <= i < |lines| ensures Texts(lines)[i] == lines[i].text {
        assert i > 0 ==> lines[1..][i - 1] == lines[i];
      }
    }
  }

  // The lines a document was made of.
  function Source(pieces: seq<Piece>): seq<Line> {
    if pieces == [] then []
    else
      (match pieces[0]
       case Paragraph(lines) => TextLines(lines)
       case ListItem(text) => [Item(text)]
       case Title(line) => [line]
       case HorizontalRule => [Rule]
       case ListOpen => []
       case ListClose => [])
      + Source(pieces[1..])
  }

  function TextLines(texts: seq<string>): (lines: seq<Line>)
    ensures |lines| == |texts| && forall i :: 0 <= i < |texts| ==> lines[i] == Text(texts[i])
  {
    if texts == [] then [] else TextLines(texts[..|texts| - 1]) + [Text(texts[|texts| - 1])]
  }

  function NonBlank(lines: seq<Line>): seq<Line> {
    if lines == [] then [] else (if lines[0].Blank? then [] else [lines[0]]) + NonBlank(lines[1..])
  }

  // Every line but the blank ones is in the document, once and in order.
  lemma {:induction false} DocumentKeepsLines(lines: seq<Line>)
    ensures Source(Document(lines)) == NonBlank(lines)
    decreases |lines|, 2
  {
    if lines != [] {
      var doc := Document(lines);
      if lines[0].Item? {
        ListKeepsLines(lines);
        assert doc[1..] == InList(lines);
      } else if lines[0].Text? {
        ParagraphKeepsLines([], lines);
        assert TextLines([]) + NonBlank(lines) == NonBlank(lines);
      } else {
        DocumentKeepsLines(lines[1..]);
        if !lines[0].Blank? {
          assert doc[1..] == Document(lines[1..]);
        }
      }
    }
  }

  lemma {:induction false} ListKeepsLines(lines: seq<Line>)
    ensures Source(InList(lines)) == NonBlank(lines)
    decreases |lines|, if lines != [] && lines[0].Item? then 0 else 3
  {
    if lines != [] && lines[0].Item? {
      ItemInList(lines);
      ListKeepsLines(lines[1..]);
      assert InList(lines)[1..] == InList(lines[1..]);
    } else {
      NoItem(lines);
      DocumentKeepsLines(lines);
      assert InList(lines)[1..] == Document(lines);
    }
  }

  lemma MoreTextLines(para: seq<string>, text: string, later: seq<Line>)
    ensures TextLines(para + [text]) + later == TextLines(para) + ([Text(text)] + later)
  {
    assert (para + [text])[..|para|] == para;
    Regroup(TextLines(para), [Text(text)], later);
  }

  lemma {:induction false} ParagraphKeepsLines(para: seq<string>, lines: seq<Line>)
    ensures Source(InParagraph(para, lines)) == TextLines(para) + NonBlank(lines)
    decreases |lines|, if lines != [] && lines[0].Text? then 0 else 3
  {
    if lines != [] && lines[0].Text? {
      TextInParagraph(para, lines);
      ParagraphKeepsLines(para + [lines[0].text], lines[1..]);
      MoreTextLines(para, lines[0].text, NonBlank(lines[1..]));
      assert NonBlank(lines) == [lines[0]] + NonBlank(lines[1..]);
    } else {
      NoText(para, lines);
      DocumentKeepsLines(lines);
      assert InParagraph(para, lines)[1..] == Document(lines);
    }
  }

  // ---------- Line breaks ----------

  function EscapeChar(c: char): string {
    match c
    case '&' => "&amp;"
    case '<' => "&lt;"
    case '>' => "&gt;"
    case '"' => "&quot;"
    case '\'' => "&#39;"
    case _ => [c]
  }

  // The replacements of the characters, one after the other.
  function Replace(text: string, f: char -> string): string {
    if text == "" then "" else Replace(text[..|text| - 1], f) + f(text[|text| - 1])
  }

  function EscapeHtml(text: string): string {
    Replace(text, EscapeChar)
  }

  function Join(parts: seq<string>, sep: string): string {
    if parts == [] then ""
    else if |parts| == 1 then parts[0]
    else Join(parts[..|parts| - 1], sep) + sep + parts[|parts| - 1]
  }

  function EscapeAll(parts: seq<string>): (escaped: seq<string>)
    ensures |escaped| == |parts|
  {
    if parts == [] then [] else EscapeAll(parts[..|parts| - 1]) + [EscapeHtml(parts[|parts| - 1])]
  }

  lemma ReplaceLast(s: string, c: char, f: char -> string)
    ensures Replace(s + [c], f) == Replace(s, f) + f(c)
  {
    assert (s + [c])[..|s|] == s;
  }

  lemma {:induction false} ReplaceJoined(s: string, t: string, f: char -> string)
    ensures Replace(s + t, f) == Replace(s, f) + Replace(t, f)
    decreases |t|
  {
    if t == "" {
      assert s + t == s;
    } else {
      var n := |t| - 1;
      var u, c := t[..n], t[n];
      ReplaceJoined(s, u, f);
      assert t == u + [c] && s + t == (s + u) + [c];
      ReplaceLast(u, c, f);
      ReplaceLast(s + u, c, f);
      Regroup(Replace(s, f), Replace(u, f), f(c));
    }
  }

  lemma ReplaceFour(text: string, f: char -> string)
    requires |text| == 4
    ensures Replace(text, f) == f(text[0]) + f(text[1]) + f(text[2]) + f(text[3])
  {
    var one, two, three := text[..1], text[..2], text[..3];
    assert one == "" + [text[0]] && two == one + [text[1]] && three == two + [text[2]] && text == three + [text[3]];
    ReplaceLast("", text[0], f);
    ReplaceLast(one, text[1], f);
    ReplaceLast(two, text[2], f);
    ReplaceLast(three, text[3], f);
  }

  lemma EscapedBreak()
    ensures EscapeHtml("<br>") == "&lt;br&gt;"
  {
    ReplaceFour("<br>", EscapeChar);
    assert "&lt;" + ['b'] + ['r'] + "&gt;" == "&lt;br&gt;";
  }

  // The breaks between the lines of a paragraph are escaped with the lines, so
  // they come out as text, whatever the lines are.
  lemma {:induction false} BreaksAreEscaped(lines: seq<string>)
    ensures EscapeHtml(Join(lines, "<br>")) == Join(EscapeAll(lines), "&lt;br&gt;")
    decreases |lines|
  {
    if |lines| > 1 {
      var n := |lines| - 1;
      BreaksAreEscaped(lines[..n]);
      EscapedBreak();
      ReplaceJoined(Join(lines[..n], "<br>") + "<br>", lines[n], EscapeChar);
      ReplaceJoined(Join(lines[..n], "<br>"), "<br>", EscapeChar);
      assert EscapeAll(lines)[..n] == EscapeAll(lines[..n]);
    } else if |lines| == 1 {
      assert EscapeAll(lines) == [EscapeHtml(lines[0])];
    }
  }
}
