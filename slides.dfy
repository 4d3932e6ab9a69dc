/**
 * The slide deck behind `PowerPointTool`.  The presentation library is kept
 * abstract: a deck is the sequence of its slides, a slide is its layout number
 * and its shapes in z-order, and a shape holds paragraphs, a picture or
 * whatever text the library reports for it.  A slide handle the tool passes
 * around is the slide's position in the deck.
 */
module Slides {
  import opened Wrappers
  import opened TextCleaning

  // ------------------------------------------------------------------
  // Slides and shapes
  // ------------------------------------------------------------------

  /** Layout numbers of the default template the tool uses. */
  const TitleLayout: nat := 0
  const ContentLayout: nat := 1
  const BlankLayout: nat := 6

  /** Placeholder numbers of the title and of the subtitle or body. */
  const TitleIdx: nat := 0
  const BodyIdx: nat := 1

  /** What `get_slide_text` answers for an index past the last slide. */
  const OutOfRange: string := "Slide index out of range"

  datatype Paragraph = Paragraph(text: string, level: nat)

  datatype Shape =
    | Placeholder(idx: nat, paragraphs: seq<Paragraph>)
    | TextBox(paragraphs: seq<Paragraph>, left: real, top: real, width: real, height: real)
    | Picture(path: string, left: real, top: real, size: Option<(real, real)>)
    | OtherShape(text: Option<string>)

  datatype Slide = Slide(layout: nat, shapes: seq<Shape>)

  /** Python's `IndexError` for a negative index before the first slide. */
  datatype DeckError = IndexError

  // ------------------------------------------------------------------
  // Text of a shape
  // ------------------------------------------------------------------

  /** `sep.join(parts)`: it starts with the first part. */
  function Join(parts: seq<string>, sep: string): (r: string)
    ensures |parts| > 0 ==> parts[0] <= r
    decreases |parts|
  {
    if |parts| == 0 then ""
    else if |parts| == 1 then parts[0]
    else parts[0] + sep + Join(parts[1..], sep)
  }

  /** `t.split("\n")`: the paragraphs a text frame gets when its text is set to `t`. */
  function Lines(t: string): (r: seq<string>)
    ensures |r| >= 1
    ensures forall i :: 0 <= i < |r| ==> '\n' !in r[i]
    decreases |t|
  {
    var k := IndexOf(t, '\n');
    if k == |t| then [t] else [t[..k]] + Lines(t[k + 1..])
  }

  /** Joining the lines of a text with `\n` gives the text back. */
  lemma {:induction false} JoinLines(t: string)
    ensures Join(Lines(t), "\n") == t
    decreases |t|
  {
    var k := IndexOf(t, '\n');
    if k < |t| {
      var head, tail := t[..k], t[k + 1..];
      var rest := Lines(tail);
      assert Lines(t) == [head] + rest;
      JoinLines(tail);
      JoinCons(head, rest, "\n");
      assert t[k..k + 1] == [t[k]] == "\n";
      SliceSplit(t, k, head, "\n", tail);
    }
  }

  lemma JoinCons(head: string, rest: seq<string>, sep: string)
    requires |rest| > 0
    ensures Join([head] + rest, sep) == head + sep + Join(rest, sep)
  {
    assert ([head] + rest)[1..] == rest;
  }

  /** Splitting a join of newline-free parts gives the parts back. */
  lemma {:induction false} LinesJoin(parts: seq<string>)
    requires |parts| >= 1
    requires forall i :: 0 <= i < |parts| ==> '\n' !in parts[i]
    ensures Lines(Join(parts, "\n")) == parts
    decreases |parts|
  {
    if |parts| == 1 {
      NoNewlineIndex(parts[0]);
    } else {
      var rest := Join(parts[1..], "\n");
      var t := parts[0] + "\n" + rest;
      JoinCons(parts[0], parts[1..], "\n");
      assert [parts[0]] + parts[1..] == parts;
      NoNewlineIndex(parts[0]);
      assert IndexOf(t, '\n') == |parts[0]| by {
        assert t[|parts[0]|] == '\n';
        assert forall i :: 0 <= i < |parts[0]| ==> t[i] == parts[0][i];
      }
      assert t[..|parts[0]|] == parts[0];
      assert t[|parts[0]| + 1..] == rest;
      LinesJoin(parts[1..]);
    }
  }

  lemma NoNewlineIndex(s: string)
    requires '\n' !in s
    ensures IndexOf(s, '\n') == |s|
  {
  }

  /** A text frame whose text was set to `t`. */
  function TextParagraphs(t: string): seq<Paragraph>
  {
    seq(|Lines(t)|, i requires 0 <= i < |Lines(t)| => Paragraph(Lines(t)[i], 0))
  }

  function ParagraphTexts(ps: seq<Paragraph>): (r: seq<string>)
    ensures |r| == |ps|
    ensures forall i :: 0 <= i < |ps| ==> r[i] == ps[i].text
  {
    seq(|ps|, i requires 0 <= i < |ps| => ps[i].text)
  }

  /** The text of a text frame: its paragraphs joined with `\n`. */
  function FrameText(ps: seq<Paragraph>): string
  {
    Join(ParagraphTexts(ps), "\n")
  }

  /** Reading back a text frame gives the text it was set to. */
  lemma FrameTextOfText(t: string)
    ensures FrameText(TextParagraphs(t)) == t
  {
    assert ParagraphTexts(TextParagraphs(t)) == Lines(t);
    JoinLines(t);
  }

  /** `shape.text` when the shape has a `text` attribute; pictures have none. */
  function TextOf(shape: Shape): (r: Option<string>)
    ensures r.None? <==> shape.Picture? || (shape.OtherShape? && shape.text.None?)
  {
    match shape
    case Placeholder(_, ps) => Some(FrameText(ps))
    case TextBox(ps, _, _, _, _) => Some(FrameText(ps))
    case Picture(_, _, _, _) => None
    case OtherShape(t) => t
  }

  /** The texts of the text-bearing shapes, in shape order. */
  function SlideTexts(shapes: seq<Shape>): seq<string>
  {
    if |shapes| == 0 then []
    else
      var t := TextOf(shapes[|shapes| - 1]);
      SlideTexts(shapes[..|shapes| - 1]) + (if t.Some? then [t.value] else [])
  }

  /** A text `str.strip()` reduces to nothing. */
  predicate Blank(t: string)
  {
    forall i :: 0 <= i < |t| ==> IsSpace(t[i])
  }

  /** The texts of the shapes whose stripped text is not empty, in shape order. */
  function NonBlankTexts(shapes: seq<Shape>): seq<string>
  {
    if |shapes| == 0 then []
    else
      var t := TextOf(shapes[|shapes| - 1]);
      NonBlankTexts(shapes[..|shapes| - 1]) + (if t.Some? && Strip(t.value) != "" then [t.value] else [])
  }

  /** The non-blank texts are the slide's texts with the blank ones dropped, in the same order. */
  lemma {:induction false} NonBlankTextsFilter(shapes: seq<Shape>)
    ensures NonBlankTexts(shapes) == DropBlank(SlideTexts(shapes))
    decreases |shapes|
  {
    if |shapes| > 0 {
      var init := shapes[..|shapes| - 1];
      var t := TextOf(shapes[|shapes| - 1]);
      NonBlankTextsFilter(init);
      DropBlankAppend(SlideTexts(init), if t.Some? then [t.value] else []);
      if t.Some? {
        StripEmptyIffBlank(t.value);
        assert DropBlank([t.value]) == DropBlank([]) + (if Blank(t.value) then [] else [t.value]);
      }
    }
  }

  /** The texts that are not blank, in order. */
  function DropBlank(ts: seq<string>): (r: seq<string>)
    ensures forall i :: 0 <= i < |r| ==> !Blank(r[i])
    ensures forall t :: t in r <==> t in ts && !Blank(t)
  {
    if |ts| == 0 then []
    else DropBlank(ts[..|ts| - 1]) + (if Blank(ts[|ts| - 1]) then [] else [ts[|ts| - 1]])
  }

  lemma {:induction false} DropBlankAppend(a: seq<string>, b: seq<string>)
    ensures DropBlank(a + b) == DropBlank(a) + DropBlank(b)
    decreases |b|
  {
    if |b| == 0 {
      assert a + b == a;
    } else {
      var b' := b[..|b| - 1];
      assert (a + b)[..|a + b| - 1] == a + b';
      DropBlankAppend(a, b');
    }
  }

  /** `get_slide_text` of an existing slide. */
  function SlideText(slide: Slide): string
  {
    Join(SlideTexts(slide.shapes), "\n")
  }

  // ------------------------------------------------------------------
  // The slides the tool adds
  // ------------------------------------------------------------------

  /** A title slide: its title placeholder reads back as the title, its subtitle placeholder as the subtitle. */
  function TitleSlide(title: string, subtitle: string): (r: Slide)
    ensures r.layout == TitleLayout && |r.shapes| == 2
    ensures TextOf(r.shapes[0]) == Some(title) && TextOf(r.shapes[1]) == Some(subtitle)
  {
    FrameTextOfText(title);
    FrameTextOfText(subtitle);
    Slide(TitleLayout, [Placeholder(TitleIdx, TextParagraphs(title)), Placeholder(BodyIdx, TextParagraphs(subtitle))])
  }

  /** The body of a content slide: one level-0 paragraph per point; one empty paragraph when there are none. */
  function BodyParagraphs(points: seq<string>): (r: seq<Paragraph>)
    ensures ParagraphTexts(r) == if |points| == 0 then [""] else points
    ensures forall k :: 0 <= k < |r| ==> r[k].level == 0
  {
    if |points| == 0 then [Paragraph("", 0)]
    else seq(|points|, i requires 0 <= i < |points| => Paragraph(points[i], 0))
  }

  /**
   * A content slide: its title placeholder reads back as the title, and its body
   * placeholder holds the points in order at level 0, or one empty paragraph.
   */
  function ContentSlide(title: string, points: seq<string>): (r: Slide)
    ensures r.layout == ContentLayout && |r.shapes| == 2 && TextOf(r.shapes[0]) == Some(title)
    ensures r.shapes[1].Placeholder? && r.shapes[1].idx == BodyIdx
    ensures ParagraphTexts(r.shapes[1].paragraphs) == if |points| == 0 then [""] else points
    ensures forall k :: 0 <= k < |r.shapes[1].paragraphs| ==> r.shapes[1].paragraphs[k].level == 0
  {
    FrameTextOfText(title);
    Slide(ContentLayout, [Placeholder(TitleIdx, TextParagraphs(title)), Placeholder(BodyIdx, BodyParagraphs(points))])
  }

  /** A text box whose text was set to `text`. */
  function TextBoxShape(text: string, left: real, top: real, width: real, height: real): Shape
  {
    TextBox(TextParagraphs(text), left, top, width, height)
  }

  /** Python truthiness of an optional number: present and not zero. */
  predicate Truthy(x: Option<real>)
  {
    x.Some? && x.value != 0.0
  }

  function WithShape(slide: Slide, shape: Shape): (r: Slide)
    ensures |r.shapes| == |slide.shapes| + 1 && r.shapes[|slide.shapes|] == shape
    ensures r.layout == slide.layout && r.shapes[..|slide.shapes|] == slide.shapes
  {
    Slide(slide.layout, slide.shapes + [shape])
  }

  /** A content slide's body holds the points in order, all at level 0. */
  lemma ContentSlideBody(title: string, points: seq<string>)
    requires |points| > 0
    ensures ParagraphTexts(ContentSlide(title, points).shapes[1].paragraphs) == points
    ensures forall p :: p in ContentSlide(title, points).shapes[1].paragraphs ==> p.level == 0
  {
  }

  /** A slide of two text-bearing shapes reads as their two texts on two lines. */
  lemma TwoShapeText(layout: nat, x: Shape, y: Shape, a: string, b: string)
    requires TextOf(x) == Some(a) && TextOf(y) == Some(b)
    ensures SlideText(Slide(layout, [x, y])) == a + "\n" + b
  {
    var shapes := [x, y];
    assert shapes[..1] == [x] && [x][..0] == [];
    assert SlideTexts([x]) == [a];
    assert shapes[..|shapes| - 1] == [x];
    assert SlideTexts(shapes) == [a, b];
    assert [a, b][1..] == [b];
    assert Join([a, b], "\n") == a + "\n" + Join([b], "\n");
  }

  /** The text of a title slide is the title and the subtitle on two lines. */
  lemma TitleSlideText(title: string, subtitle: string)
    ensures SlideText(TitleSlide(title, subtitle)) == title + "\n" + subtitle
  {
    FrameTextOfText(title);
    FrameTextOfText(subtitle);
    TwoShapeText(TitleLayout, Placeholder(TitleIdx, TextParagraphs(title)), Placeholder(BodyIdx, TextParagraphs(subtitle)), title, subtitle);
  }

  /**
   * The text of a content slide is the title, then the points one per line;
   * with no points the body is the one empty paragraph `clear()` keeps.
   */
  lemma ContentSlideText(title: string, points: seq<string>)
    ensures SlideText(ContentSlide(title, points)) == title + "\n" + Join(points, "\n")
  {
    FrameTextOfText(title);
    if |points| == 0 {
      assert FrameText(BodyParagraphs(points)) == "";
      TwoShapeText(ContentLayout, Placeholder(TitleIdx, TextParagraphs(title)), Placeholder(BodyIdx, BodyParagraphs(points)), title, "");
    } else {
      ContentSlideBody(title, points);
      TwoShapeText(ContentLayout, Placeholder(TitleIdx, TextParagraphs(title)), Placeholder(BodyIdx, BodyParagraphs(points)), title, Join(points, "\n"));
    }
  }

  // ------------------------------------------------------------------
  // Slide labels of `extract_all_text`
  // ------------------------------------------------------------------

  function DigitChar(d: nat): char
    requires d < 10
  {
    ('0' as int + d) as char
  }

  /** The decimal numeral of `n`, as `str(n)` writes it: digits only, no leading zero. */
  function Decimal(n: nat): (r: string)
    ensures |r| >= 1 && forall k :: 0 <= k < |r| ==> IsDigit(r[k])
    ensures n > 0 ==> r[0] != '0'
    decreases n
  {
    if n < 10 then [DigitChar(n)] else Decimal(n / 10) + [DigitChar(n % 10)]
  }

  /** Reads a numeral back. */
  function DecimalValue(s: string): int
  {
    if |s| == 0 then 0 else DecimalValue(s[..|s| - 1]) * 10 + (s[|s| - 1] as int - '0' as int)
  }

  lemma {:induction false} DecimalRoundTrip(n: nat)
    ensures DecimalValue(Decimal(n)) == n
    decreases n
  {
    if n >= 10 {
      var s := Decimal(n);
      assert s[..|s| - 1] == Decimal(n / 10);
      DecimalRoundTrip(n / 10);
    }
  }

  const SlidePrefix: string := "Slide "

  /** The key `extract_all_text` gives the slide at position `i`: `Slide {i+1}`. */
  function Label(i: nat): (key: string)
    ensures |key| > |SlidePrefix| && key[..|SlidePrefix|] == SlidePrefix
    ensures forall k :: |SlidePrefix| <= k < |key| ==> IsDigit(key[k])
    ensures key[|SlidePrefix|] != '0'
  {
    SlidePrefix + Decimal(i + 1)
  }

  /** Different slides get different keys. */
  lemma LabelInjective(i: nat, j: nat)
    requires Label(i) == Label(j)
    ensures i == j
  {
    assert Decimal(i + 1) == Label(i)[|SlidePrefix|..];
    assert Decimal(j + 1) == Label(j)[|SlidePrefix|..];
    DecimalRoundTrip(i + 1);
    DecimalRoundTrip(j + 1);
  }

  /** The keys of the first `n` slides. */
  function Labels(n: nat): set<string>
  {
    if n == 0 then {} else Labels(n - 1) + {Label(n - 1)}
  }

  lemma {:induction false} LabelsMembership(n: nat, key: string)
    ensures key in Labels(n) <==> exists i :: 0 <= i < n && key == Label(i)
  {
    if n > 0 {
      LabelsMembership(n - 1, key);
    }
  }

  lemma LabelFresh(n: nat)
    ensures Label(n) !in Labels(n)
  {
    LabelsMembership(n, Label(n));
    if Label(n) in Labels(n) {
      var i :| 0 <= i < n && Label(n) == Label(i);
      LabelInjective(i, n);
    }
  }

  /** There are as many keys as slides. */
  lemma {:induction false} LabelsSize(n: nat)
    ensures |Labels(n)| == n
  {
    if n > 0 {
      LabelsSize(n - 1);
      LabelFresh(n - 1);
    }
  }

  /** The inner loop of `get_slide_text`: the texts of the text-bearing shapes. */
  method CollectTexts(shapes: seq<Shape>) returns (texts: seq<string>)
    ensures texts == SlideTexts(shapes)
  {
    texts := [];
    for j := 0 to |shapes|
      invariant texts == SlideTexts(shapes[..j])
    {
      assert shapes[..j + 1][..j] == shapes[..j];
      var t := TextOf(shapes[j]);
      if t.Some? {
        texts := texts + [t.value];
      }
    }
    assert shapes[..|shapes|] == shapes;
  }

  /** The inner loop of `extract_all_text`: the texts whose stripped form is not empty. */
  method CollectNonBlankTexts(shapes: seq<Shape>) returns (texts: seq<string>)
    ensures texts == NonBlankTexts(shapes)
  {
    texts := [];
    for j := 0 to |shapes|
      invariant texts == NonBlankTexts(shapes[..j])
    {
      assert shapes[..j + 1][..j] == shapes[..j];
      var t := TextOf(shapes[j]);
      if t.Some? && Strip(t.value) != "" {
        texts := texts + [t.value];
      }
    }
    assert shapes[..|shapes|] == shapes;
  }

  /** The texts of the first `i` slides of `deck`, keyed by label. */
  predicate TextsByLabel(all: map<string, seq<string>>, deck: seq<Slide>, i: nat)
    requires i <= |deck|
  {
    all.Keys == Labels(i) &&
    forall j :: 0 <= j < i ==> Label(j) in all && all[Label(j)] == NonBlankTexts(deck[j].shapes)
  }

  lemma TextsByLabelExtend(all: map<string, seq<string>>, deck: seq<Slide>, i: nat, texts: seq<string>)
    requires i < |deck| && TextsByLabel(all, deck, i)
    requires texts == NonBlankTexts(deck[i].shapes)
    ensures TextsByLabel(all[Label(i) := texts], deck, i + 1)
  {
    LabelFresh(i);
    assert forall j :: 0 <= j < i ==> Label(j) != Label(i);
  }

  // ------------------------------------------------------------------
  // The tool
  // ------------------------------------------------------------------

  /** The texts of the sample deck `create_sample_presentation` appends. */
  const SampleTitle: string := "Sample Presentation"
  const SampleSubtitle: string := "Created with Python"
  const SampleTopic: string := "Main Topics"
  const SamplePoints: seq<string> := ["First bullet point", "Second bullet point", "Third bullet point"]
  const SampleBoxText: string := "Custom Text Box"

  class PowerPointTool {
    /** The slides of the current presentation, in order. */
    var slides: seq<Slide>

    /** A new presentation has no slides. */
    constructor()
      ensures slides == []
    {
      slides := [];
    }

    method CreateNewPresentation()
      modifies this
      ensures slides == []
    {
      slides := [];
    }

    /** `files` maps each existing path to the deck stored there; a missing path keeps the current deck. */
    method LoadPresentation(files: map<string, seq<Slide>>, path: string)
      modifies this
      ensures path in files ==> slides == files[path]
      ensures path !in files ==> slides == old(slides)
    {
      if path in files {
        slides := files[path];
      }
    }

    /** Appends a title slide and returns its position. */
    method AddTitleSlide(title: string, subtitle: string) returns (index: nat)
      modifies this
      ensures slides == old(slides) + [TitleSlide(title, subtitle)]
      ensures index == |old(slides)| && index < |slides|
    {
      index := |slides|;
      slides := slides + [TitleSlide(title, subtitle)];
    }

    /** Appends a title-and-content slide whose body paragraphs are the points. */
    method AddContentSlide(title: string, points: seq<string>) returns (index: nat)
      modifies this
      ensures slides == old(slides) + [ContentSlide(title, points)]
      ensures index == |old(slides)| && index < |slides|
    {
      var body: seq<Paragraph> := [Paragraph("", 0)];
      for i := 0 to |points|
        invariant body == BodyParagraphs(points[..i])
      {
        if i == 0 {
          body := [Paragraph(points[i], 0)];
        } else {
          body := body + [Paragraph(points[i], 0)];
        }
      }
      assert points[..|points|] == points;
      index := |slides|;
      slides := slides + [Slide(ContentLayout, [Placeholder(TitleIdx, TextParagraphs(title)), Placeholder(BodyIdx, body)])];
    }

    /** Appends a slide with no shapes and returns its position. */
    method AddBlankSlide() returns (index: nat)
      modifies this
      ensures slides == old(slides) + [Slide(BlankLayout, [])]
      ensures index == |old(slides)| && index < |slides|
    {
      index := |slides|;
      slides := slides + [Slide(BlankLayout, [])];
    }

    /** Adds a text box holding `text` on top of the slide at `index`. */
    method AddTextBox(index: nat, text: string, left: real, top: real, width: real, height: real) returns (box: Shape)
      requires index < |slides|
      modifies this
      ensures box == TextBoxShape(text, left, top, width, height)
      ensures slides == old(slides)[index := WithShape(old(slides)[index], box)]
    {
      box := TextBoxShape(text, left, top, width, height);
      slides := slides[index := WithShape(slides[index], box)];
    }

    /**
     * Adds a picture from `path` when that file is among `images`; the explicit
     * size is used only when width and height are both truthy.
     */
    method AddImage(images: set<string>, index: nat, path: string, left: real, top: real,
                    width: Option<real>, height: Option<real>) returns (picture: Option<Shape>)
      requires index < |slides|
      modifies this
      ensures path !in images ==> picture == None && slides == old(slides)
      ensures path in images ==> (picture.Some? && picture.value.Picture? &&
        picture.value.path == path && picture.value.left == left && picture.value.top == top &&
        (picture.value.size.Some? <==> Truthy(width) && Truthy(height)) &&
        (picture.value.size.Some? ==> picture.value.size.value == (width.value, height.value)) &&
        slides == old(slides)[index := WithShape(old(slides)[index], picture.value)])
    {
      if path !in images {
        return None;
      }
      var shape;
      if Truthy(width) && Truthy(height) {
        shape := Picture(path, left, top, Some((width.value, height.value)));
      } else {
        shape := Picture(path, left, top, None);
      }
      slides := slides[index := WithShape(slides[index], shape)];
      return Some(shape);
    }

    method GetSlideCount() returns (n: nat)
      ensures n == |slides|
    {
      return |slides|;
    }

    /**
     * The texts of the slide's text-bearing shapes joined with `\n`; the
     * out-of-range text past the last slide.  A negative index counts from
     * the end, as Python list indexing does, and one before the first slide
     * raises `IndexError`.
     */
    method GetSlideText(index: int) returns (r: Result<string, DeckError>)
      ensures index >= |slides| ==> r == Success(OutOfRange)
      ensures 0 <= index < |slides| ==> r == Success(SlideText(slides[index]))
      ensures -|slides| <= index < 0 ==> r == Success(SlideText(slides[index + |slides|]))
      ensures index < -|slides| ==> r == Failure(IndexError)
    {
      if index >= |slides| {
        return Success(OutOfRange);
      }
      var k := if index < 0 then index + |slides| else index;
      if k < 0 {
        return Failure(IndexError);
      }
      var texts := CollectTexts(slides[k].shapes);
      return Success(Join(texts, "\n"));
    }

    /** The non-blank texts of every slide, under the keys `Slide 1` .. `Slide n`. */
    method ExtractAllText() returns (all: map<string, seq<string>>)
      ensures all.Keys == Labels(|slides|) && |all| == |slides|
      ensures forall i :: 0 <= i < |slides| ==> Label(i) in all && all[Label(i)] == NonBlankTexts(slides[i].shapes)
    {
      var deck := slides;
      all := map[];
      for i := 0 to |deck|
        invariant TextsByLabel(all, deck, i)
      {
        var slideText := CollectNonBlankTexts(deck[i].shapes);
        TextsByLabelExtend(all, deck, i, slideText);
        all := all[Label(i) := slideText];
      }
      assert |all| == |all.Keys|;
      LabelsSize(|slides|);
    }

    /** Appends the three sample slides. */
    method CreateSamplePresentation()
      modifies this
      ensures |slides| == |old(slides)| + 3 && slides[..|old(slides)|] == old(slides)
      ensures slides[|old(slides)|] == TitleSlide(SampleTitle, SampleSubtitle)
      ensures slides[|old(slides)| + 1] == ContentSlide(SampleTopic, SamplePoints)
      ensures slides[|old(slides)| + 2] == Slide(BlankLayout, [TextBoxShape(SampleBoxText, 1.0, 1.0, 8.0, 2.0)])
    {
      AddSampleSlides(SampleTitle, SampleSubtitle, SampleTopic, SamplePoints, SampleBoxText);
    }

    /** The steps of `create_sample_presentation`, for any texts. */
    method AddSampleSlides(title: string, subtitle: string, topic: string, points: seq<string>, boxText: string)
      modifies this
      ensures |slides| == |old(slides)| + 3 && slides[..|old(slides)|] == old(slides)
      ensures slides[|old(slides)|] == TitleSlide(title, subtitle)
      ensures slides[|old(slides)| + 1] == ContentSlide(topic, points)
      ensures slides[|old(slides)| + 2] == Slide(BlankLayout, [TextBoxShape(boxText, 1.0, 1.0, 8.0, 2.0)])
    {
      var _ := AddTitleSlide(title, subtitle);
      var _ := AddContentSlide(topic, points);
      var blank := AddBlankSlide();
      var _ := AddTextBox(blank, boxText, 1.0, 1.0, 8.0, 2.0);
    }
  }
}
