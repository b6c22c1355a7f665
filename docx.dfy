/** The part of a .docx document that the templating step reads and writes
    (main.py:90-112): body paragraphs with their alignment, and each
    paragraph's runs with their text and the five formatting attributes the
    step copies. */
module Docx {
  import opened Optional
  import opened Placeholder

  /** A run's underline setting: python-docx reports `True`, `False` or a
      named underline style (given here by its enumeration value). */
  datatype Underline = Underlined | NotUnderlined | UnderlineStyle(style: nat)

  /** The run attributes main.py:108-112 copies; `None` means "inherited
      from the style". The font size is a length in EMU. */
  datatype RunFormat = RunFormat(
    bold: Option<bool>,
    italic: Option<bool>,
    underline: Option<Underline>,
    size: Option<nat>,
    fontName: Option<string>)

  datatype Run = Run(text: string, format: RunFormat)

  /** A body paragraph; the alignment is a paragraph-alignment enumeration
      value, `None` when inherited. */
  datatype Paragraph = Paragraph(alignment: Option<nat>, runs: seq<Run>)

  datatype Document = Document(paragraphs: seq<Paragraph>)

  /** `out` is the copy of `template` that main.py:90-112 builds for one row:
      as many paragraphs, in order, each with its source's alignment and as
      many runs, in order, each with its source's formatting and with its
      source's text substituted against the row. */
  ghost predicate IsCopyOf(out: Document, template: Document, columns: seq<string>, row: seq<string>)
    requires |row| == |columns|
  {
    && |out.paragraphs| == |template.paragraphs|
    && forall i :: 0 <= i < |template.paragraphs| ==>
         IsParagraphCopy(out.paragraphs[i], template.paragraphs[i], columns, row)
  }

  ghost predicate IsParagraphCopy(out: Paragraph, source: Paragraph, columns: seq<string>, row: seq<string>)
    requires |row| == |columns|
  {
    && out.alignment == source.alignment
    && |out.runs| == |source.runs|
    && forall j :: 0 <= j < |source.runs| ==>
         out.runs[j] == Run(Substitute(source.runs[j].text, columns, row), source.runs[j].format)
  }

  function RenderParagraph(p: Paragraph, columns: seq<string>, row: seq<string>): Paragraph
    requires |row| == |columns|
  {
    Paragraph(p.alignment, seq(|p.runs|, j requires 0 <= j < |p.runs| =>
      Run(Substitute(p.runs[j].text, columns, row), p.runs[j].format)))
  }

  /** The document generated for one row. */
  function Render(template: Document, columns: seq<string>, row: seq<string>): Document
    requires |row| == |columns|
  {
    Document(seq(|template.paragraphs|, i requires 0 <= i < |template.paragraphs| =>
      RenderParagraph(template.paragraphs[i], columns, row)))
  }

  /** `Render` builds the copy the templating step describes. */
  lemma RenderIsCopy(template: Document, columns: seq<string>, row: seq<string>)
    requires |row| == |columns|
    ensures IsCopyOf(Render(template, columns, row), template, columns, row)
  {
  }

  /** The copy is determined by the template and the row. */
  lemma CopyIsUnique(a: Document, b: Document, template: Document, columns: seq<string>, row: seq<string>)
    requires |row| == |columns|
    requires IsCopyOf(a, template, columns, row) && IsCopyOf(b, template, columns, row)
    ensures a == b
  {
    forall i | 0 <= i < |a.paragraphs|
      ensures a.paragraphs[i] == b.paragraphs[i]
    {
      assert IsParagraphCopy(a.paragraphs[i], template.paragraphs[i], columns, row);
      assert IsParagraphCopy(b.paragraphs[i], template.paragraphs[i], columns, row);
      assert a.paragraphs[i].runs == b.paragraphs[i].runs;
    }
    assert a.paragraphs == b.paragraphs;
  }

  /** A template none of whose runs holds `{{{` comes out with the same modelled
      body: alignments, runs, their text and their five attributes. */
  lemma RenderWithoutPlaceholders(template: Document, columns: seq<string>, row: seq<string>)
    requires |row| == |columns|
    requires forall i, j :: 0 <= i < |template.paragraphs| && 0 <= j < |template.paragraphs[i].runs| ==>
               !Text.Occurs(template.paragraphs[i].runs[j].text, "{{{")
    ensures Render(template, columns, row) == template
  {
    var out := Render(template, columns, row);
    forall i | 0 <= i < |template.paragraphs|
      ensures out.paragraphs[i] == template.paragraphs[i]
    {
      var p := template.paragraphs[i];
      forall j | 0 <= j < |p.runs|
        ensures out.paragraphs[i].runs[j] == p.runs[j]
      {
        SubstituteWithoutOpenDelimiter(p.runs[j].text, columns, row);
      }
      assert out.paragraphs[i].runs == p.runs;
    }
    assert out.paragraphs == template.paragraphs;
  }

  /** The document under construction: `document = Document()` followed by
      `add_paragraph` and `add_run` calls (main.py:64, 92, 105). */
  class DocumentBuilder {
    var body: seq<Paragraph>

    constructor ()
      ensures body == []
    {
      body := [];
    }

    /** `document.add_paragraph()` followed by setting the alignment
        (main.py:92-93); returns the new paragraph's position. */
    method AddParagraph(alignment: Option<nat>) returns (index: nat)
      modifies this
      ensures body == old(body) + [Paragraph(alignment, [])]
      ensures index == |old(body)|
    {
      index := |body|;
      body := body + [Paragraph(alignment, [])];
    }

    /** `paragraph.add_run(text)` followed by copying the formatting
        (main.py:105-112). */
    method AddRun(index: nat, text: string, format: RunFormat)
      requires index < |body|
      modifies this
      ensures |body| == |old(body)|
      ensures body[index] == old(body)[index].(runs := old(body)[index].runs + [Run(text, format)])
      ensures forall i :: 0 <= i < |body| && i != index ==> body[i] == old(body)[i]
    {
      var p := body[index];
      body := body[index := p.(runs := p.runs + [Run(text, format)])];
    }
  }

  /** The paragraph and run loops of main.py:90-112 for one data row. */
  method RenderRow(template: Document, columns: seq<string>, row: seq<string>) returns (doc: Document)
    requires |row| == |columns|
    ensures IsCopyOf(doc, template, columns, row)
    ensures doc == Render(template, columns, row)
  {
    var document := new DocumentBuilder();
    var paragraphs := template.paragraphs;
    for i := 0 to |paragraphs|
      invariant |document.body| == i
      invariant forall k :: 0 <= k < i ==>
                  IsParagraphCopy(document.body[k], paragraphs[k], columns, row)
    {
      var source := paragraphs[i];
      var index := document.AddParagraph(source.alignment);
      for j := 0 to |source.runs|
        invariant |document.body| == i + 1
        invariant forall k :: 0 <= k < i ==>
                    IsParagraphCopy(document.body[k], paragraphs[k], columns, row)
        invariant document.body[i].alignment == source.alignment
        invariant |document.body[i].runs| == j
        invariant forall m :: 0 <= m < j ==>
                    document.body[i].runs[m]
                    == Run(Substitute(source.runs[m].text, columns, row), source.runs[m].format)
      {
        var run := source.runs[j];
        var text := SubstituteText(run.text, columns, row);
        document.AddRun(index, text, run.format);
      }
    }
    doc := Document(document.body);
    RenderIsCopy(template, columns, row);
    CopyIsUnique(doc, Render(template, columns, row), template, columns, row);
  }
}
