/** The text-only message viewer: a text control that only grows, the
    clickable ranges laid over its text, and the mouse commands a click on
    them dispatches. */
module TextViewers {
  import opened Common

  /** A font: point size, family and encoding. */
  datatype Font = Font(size: nat, family: nat, encoding: Encoding)

  /** A text attribute; an unset colour or font leaves the control's current
      one in place. */
  datatype Style = Style(colour: Colour, font: Option<Font>)

  /** The two things a click can be on: a MIME part shown as an icon, with
      its caption, or a URL. */
  datatype ClickKind = Icon | Url
  datatype ClickInfo = ClickInfo(kind: ClickKind, caption: string)

  /** The range [start, start + len) of the text a ClickInfo belongs to. */
  datatype Clickable = Clickable(start: int, len: nat, info: ClickInfo)

  /** The mouse events the window listens to. */
  datatype MouseEvent = RightUp | LeftUp | LeftDClick

  /** The menu commands a click on a clickable is turned into. */
  datatype Command = RClick | LClick | DblClick

  /** One call of DoMouseCommand. */
  datatype Dispatch = Dispatch(command: Command, info: ClickInfo)

  /** The options the viewer takes its colours and font from. */
  datatype ViewerOptions = ViewerOptions(
    fgCol: Colour, bgCol: Colour,
    headerNameCol: Colour, headerValueCol: Colour,
    attCol: Colour, urlCol: Colour,
    fontSize: nat, fontFamily: nat)

  /** TextViewerClickable::Inside. */
  predicate Inside(c: Clickable, pos: int)
  {
    pos >= c.start && pos - c.start < c.len
  }

  /** The command for a mouse event. */
  function CommandFor(ev: MouseEvent): (cmd: Command)
    ensures cmd == RClick <==> ev == RightUp
    ensures cmd == LClick <==> ev == LeftUp
    ensures cmd == DblClick <==> ev == LeftDClick
  {
    match ev
    case RightUp => RClick
    case LeftUp => LClick
    case LeftDClick => DblClick
  }

  /** The commands a click at pos dispatches: one per clickable containing
      pos, in the order the clickables were inserted. */
  function Dispatches(cs: seq<Clickable>, ev: MouseEvent, pos: int): seq<Dispatch>
  {
    if cs == [] then []
    else
      var last := cs[|cs| - 1];
      Dispatches(cs[..|cs| - 1], ev, pos)
        + (if Inside(last, pos) then [Dispatch(CommandFor(ev), last.info)] else [])
  }

  /** A click dispatches a command for a clickable exactly when the clickable
      contains the position. */
  lemma {:induction false} DispatchesExactlyInside(cs: seq<Clickable>, ev: MouseEvent, pos: int, d: Dispatch)
    ensures d in Dispatches(cs, ev, pos) <==>
      d.command == CommandFor(ev) && exists c <- cs :: Inside(c, pos) && c.info == d.info
  {
    if cs != [] {
      var init := cs[..|cs| - 1];
      DispatchesExactlyInside(init, ev, pos, d);
      assert cs == init + [cs[|cs| - 1]];
      assert forall c <- init :: c in cs;
    }
  }

  /** Clickables in insertion order cover disjoint, ascending ranges. */
  ghost predicate Ordered(cs: seq<Clickable>)
  {
    forall i, j :: 0 <= i < j < |cs| ==> cs[i].start + cs[i].len <= cs[j].start
  }

  /** No clickable ends after pos. */
  lemma {:induction false} NoneInsideAfter(cs: seq<Clickable>, ev: MouseEvent, pos: int)
    requires forall c <- cs :: c.start + c.len <= pos
    ensures Dispatches(cs, ev, pos) == []
  {
    if cs != [] {
      assert cs[|cs| - 1] in cs;
      assert forall c <- cs[..|cs| - 1] :: c in cs;
      NoneInsideAfter(cs[..|cs| - 1], ev, pos);
    }
  }

  /** Over ordered clickables a click dispatches at most one command. */
  lemma {:induction false} AtMostOneDispatch(cs: seq<Clickable>, ev: MouseEvent, pos: int)
    requires Ordered(cs)
    ensures |Dispatches(cs, ev, pos)| <= 1
  {
    if cs != [] {
      var init := cs[..|cs| - 1];
      var last := cs[|cs| - 1];
      if Inside(last, pos) {
        forall c <- init
          ensures c.start + c.len <= pos
        {
          var i :| 0 <= i < |init| && init[i] == c;
          assert cs[i] == c;
        }
        NoneInsideAfter(init, ev, pos);
      } else {
        AtMostOneDispatch(init, ev, pos);
      }
    }
  }

  /** The text of InsertAttachment. */
  function AttachmentText(caption: string): (s: string)
    ensures |s| == |caption| + 14
  {
    "[Attachment: " + caption + "]"
  }

  /** Reading the caption back out of an attachment's text. */
  function AttachmentLabel(s: string): Option<string>
  {
    if |s| >= 14 && s[..13] == "[Attachment: " && s[|s| - 1] == ']'
    then Some(s[13..|s| - 1])
    else None
  }

  /** The caption survives the round trip through the text. */
  lemma AttachmentLabelRoundTrip(caption: string)
    ensures AttachmentLabel(AttachmentText(caption)) == Some(caption)
  {
    var s := AttachmentText(caption);
    assert s[..13] == "[Attachment: ";
    assert s[13..|s| - 1] == caption;
  }

  /** The text ShowHeader appends for a header with a non-empty value. */
  function HeaderLine(name: string, value: string): (s: string)
    ensures |s| == |name| + |value| + 3
  {
    name + ": " + value + "\n"
  }

  /** When the name holds no colon, the line splits back at its first colon
      into the name and the value. */
  lemma HeaderLineSplits(name: string, value: string)
    requires ':' !in name
    ensures BeforeFirst(HeaderLine(name, value), ':') == name
    ensures AfterFirst(HeaderLine(name, value), ':') == " " + value + "\n"
  {
    var s := HeaderLine(name, value);
    assert s == name + [':'] + (" " + value + "\n");
    IndexOfAfterPrefix(name, " " + value + "\n", ':');
  }

  /** The style of text appended with the current style cur after style s
      was set: unset parts of s keep the current values. */
  function Merge(cur: Style, s: Style): (r: Style)
    ensures r.colour == (if s.colour.NullColour? then cur.colour else s.colour)
    ensures r.font == (if s.font.None? then cur.font else s.font)
  {
    Style(if s.colour.NullColour? then cur.colour else s.colour,
          if s.font.None? then cur.font else s.font)
  }

  /** The style of the header value: its colour and, for a header in an
      encoding other than the system one, a font in that encoding. */
  function HeaderValueStyle(opts: ViewerOptions, enc: Encoding): (s: Style)
    ensures s.colour == opts.headerValueCol
    ensures s.font.Some? <==> enc != System
    ensures s.font.Some? ==> s.font.value.encoding == enc && s.font.value.size == opts.fontSize
  {
    if enc != System then Style(opts.headerValueCol, Some(Font(opts.fontSize, opts.fontFamily, enc)))
    else Style(opts.headerValueCol, None)
  }

  /** n copies of x. */
  function Repeat<T>(x: T, n: nat): (r: seq<T>)
    ensures |r| == n
    ensures forall i :: 0 <= i < n ==> r[i] == x
  {
    if n == 0 then [] else Repeat(x, n - 1) + [x]
  }

  /** TextViewerWindow: the text, the style each character was appended
      with, and the clickables over it. */
  class TextViewerWindow {
    var text: string
    var styles: seq<Style>
    /** The default style new text gets. */
    var style: Style
    var clickables: seq<Clickable>
    var insertionPoint: int
    var fg: Colour
    var bg: Colour
    var font: Option<Font>
    /** The mouse commands handed to the viewer, oldest first. */
    var dispatched: seq<Dispatch>

    ghost predicate Valid()
      reads this
    {
      && |styles| == |text|
      && Ordered(clickables)
      && (forall c <- clickables :: 0 <= c.start && c.start + c.len <= |text|)
    }

    constructor()
      ensures Valid()
      ensures text == [] && clickables == [] && dispatched == []
    {
      text := [];
      styles := [];
      style := Style(NullColour, None);
      clickables := [];
      insertionPoint := 0;
      fg := NullColour;
      bg := NullColour;
      font := None;
      dispatched := [];
    }

    /** wxTextCtrl::SetDefaultStyle. */
    method SetDefaultStyle(s: Style)
      modifies this
      ensures style == Merge(old(style), s)
      ensures text == old(text) && styles == old(styles) && clickables == old(clickables)
      ensures dispatched == old(dispatched) && insertionPoint == old(insertionPoint)
      ensures fg == old(fg) && bg == old(bg) && font == old(font)
    {
      style := Merge(style, s);
    }

    /** wxTextCtrl::AppendText: the text grows at its end, in the default
        style. */
    method AppendText(t: string)
      requires Valid()
      modifies this
      ensures Valid()
      ensures text == old(text) + t
      ensures styles == old(styles) + Repeat(style, |t|)
      ensures style == old(style) && clickables == old(clickables)
      ensures dispatched == old(dispatched) && insertionPoint == old(insertionPoint)
      ensures fg == old(fg) && bg == old(bg) && font == old(font)
    {
      text := text + t;
      styles := styles + Repeat(style, |t|);
    }

    /** InsertClickable: the clickable covers exactly the text appended, which
        starts at the end of the old text. */
    method InsertClickable(t: string, ci: ClickInfo, col: Colour)
      requires Valid()
      modifies this
      ensures Valid()
      ensures text == old(text) + t
      ensures clickables == old(clickables) + [Clickable(|old(text)|, |t|, ci)]
      ensures style == (if col.NullColour? then old(style) else Merge(old(style), Style(col, None)))
      ensures styles == old(styles) + Repeat(style, |t|)
      ensures dispatched == old(dispatched) && insertionPoint == old(insertionPoint)
      ensures fg == old(fg) && bg == old(bg) && font == old(font)
    {
      if !col.NullColour? {
        SetDefaultStyle(Style(col, None));
      }
      var c := Clickable(|text|, |t|, ci);
      AppendText(t);
      clickables := clickables + [c];
    }

    /** Clear: no text and no clickables. */
    method Clear()
      modifies this
      ensures Valid()
      ensures text == [] && clickables == []
      ensures style == old(style) && dispatched == old(dispatched)
      ensures fg == old(fg) && bg == old(bg) && font == old(font)
    {
      text := [];
      styles := [];
      clickables := [];
      insertionPoint := 0;
    }

    /** ProcessMouseEvent: every clickable containing pos, in order, gets the
        event's command. */
    method ProcessMouseEvent(ev: MouseEvent, pos: int)
      modifies this
      ensures dispatched == old(dispatched) + Dispatches(clickables, ev, pos)
      ensures text == old(text) && styles == old(styles) && style == old(style)
      ensures clickables == old(clickables) && insertionPoint == old(insertionPoint)
      ensures fg == old(fg) && bg == old(bg) && font == old(font)
    {
      var n := 0;
      while n < |clickables|
        invariant 0 <= n <= |clickables|
        invariant dispatched == old(dispatched) + Dispatches(clickables[..n], ev, pos)
        invariant text == old(text) && styles == old(styles) && style == old(style)
        invariant clickables == old(clickables) && insertionPoint == old(insertionPoint)
        invariant fg == old(fg) && bg == old(bg) && font == old(font)
      {
        var clickable := clickables[n];
        assert clickables[..n + 1][..n] == clickables[..n];
        if Inside(clickable, pos) {
          var id := CommandFor(ev);
          dispatched := dispatched + [Dispatch(id, clickable.info)];
        }
        n := n + 1;
      }
      assert clickables[..n] == clickables;
    }

    /** OnMouseEvent: the click is at the insertion point. */
    method OnMouseEvent(ev: MouseEvent)
      modifies this
      ensures dispatched == old(dispatched) + Dispatches(clickables, ev, insertionPoint)
      ensures text == old(text) && clickables == old(clickables)
    {
      ProcessMouseEvent(ev, insertionPoint);
    }
  }

  /** TextViewer: shows a message as plain text in a TextViewerWindow. */
  class TextViewer {
    const window: TextViewerWindow
    var opts: ViewerOptions

    constructor(opts: ViewerOptions)
      ensures fresh(window) && window.Valid() && window.text == []
      ensures this.opts == opts
    {
      window := new TextViewerWindow();
      this.opts := opts;
    }

    /** Clear: empties the window and resets its font and colours from the
        options. */
    method Clear()
      modifies window
      ensures window.Valid()
      ensures window.text == [] && window.clickables == []
      ensures window.font == Some(Font(opts.fontSize, opts.fontFamily, Default))
      ensures window.fg == opts.fgCol && window.bg == opts.bgCol
    {
      window.Clear();
      window.font := Some(Font(opts.fontSize, opts.fontFamily, Default));
      window.fg := opts.fgCol;
      window.bg := opts.bgCol;
    }

    /** ShowRawHeaders: the headers as they are. */
    method ShowRawHeaders(header: string)
      requires window.Valid()
      modifies window
      ensures window.Valid()
      ensures window.text == old(window.text) + header
      ensures window.clickables == old(window.clickables)
    {
      window.AppendText(header);
    }

    /** InsertText: the text in the given style. */
    method InsertText(t: string, s: Style)
      requires window.Valid()
      modifies window
      ensures window.Valid()
      ensures window.text == old(window.text) + t
      ensures window.style == Merge(old(window.style), s)
      ensures window.styles == old(window.styles) + Repeat(window.style, |t|)
      ensures window.clickables == old(window.clickables)
    {
      window.SetDefaultStyle(s);
      window.AppendText(t);
    }

    /** ShowHeader: nothing for an empty value; otherwise "name: " in the
        header name colour, then the value and a new line in the header
        value colour. */
    method ShowHeader(name: string, value: string, enc: Encoding)
      requires window.Valid()
      modifies window
      ensures window.Valid()
      ensures value == [] ==> window.text == old(window.text) && window.styles == old(window.styles)
      ensures value != [] ==> window.text == old(window.text) + HeaderLine(name, value)
      ensures value != [] ==>
        var nameStyle := Merge(old(window.style), Style(opts.headerNameCol, None));
        window.styles == old(window.styles)
          + Repeat(nameStyle, |name| + 2)
          + Repeat(Merge(nameStyle, HeaderValueStyle(opts, enc)), |value| + 1)
      ensures window.clickables == old(window.clickables)
    {
      if value == [] {
        return;
      }
      InsertText(name + ": ", Style(opts.headerNameCol, None));
      var attr := HeaderValueStyle(opts, enc);
      InsertText(value + "\n", attr);
    }

    /** StartPart: a blank line before every part. */
    method StartPart()
      requires window.Valid()
      modifies window
      ensures window.Valid()
      ensures window.text == old(window.text) + "\n"
      ensures window.clickables == old(window.clickables)
    {
      window.AppendText("\n");
    }

    /** InsertAttachment: the bracketed caption, clickable, in the attachment
        colour. */
    method InsertAttachment(ci: ClickInfo)
      requires window.Valid()
      modifies window
      ensures window.Valid()
      ensures window.text == old(window.text) + AttachmentText(ci.caption)
      ensures window.clickables ==
        old(window.clickables) + [Clickable(|old(window.text)|, |ci.caption| + 14, ci)]
    {
      window.InsertClickable(AttachmentText(ci.caption), ci, opts.attCol);
    }

    /** InsertURL: the URL, clickable, in the URL colour. */
    method InsertURL(url: string)
      requires window.Valid()
      modifies window
      ensures window.Valid()
      ensures window.text == old(window.text) + url
      ensures window.clickables ==
        old(window.clickables) + [Clickable(|old(window.text)|, |url|, ClickInfo(Url, url))]
    {
      window.InsertClickable(url, ClickInfo(Url, url), opts.urlCol);
    }

    /** EndBody: the insertion point goes back to the start. */
    method EndBody()
      modifies window
      ensures window.insertionPoint == 0
      ensures window.text == old(window.text) && window.clickables == old(window.clickables)
      ensures window.styles == old(window.styles)
    {
      window.insertionPoint := 0;
    }

    /** CanInlineImages: this viewer shows no images. */
    function CanInlineImages(): (b: bool)
      ensures !b
    {
      false
    }

    /** CanProcess: no MIME type gets special processing. */
    function CanProcess(mimetype: string): (b: bool)
      ensures !b
    {
      false
    }
  }
}
