/** The message view: how a message's headers and MIME parts become calls
    on the viewer. The viewer, the URL finder, the quoting-level counter,
    the yes/no prompt, the charset mapper, the MIME type manager and image
    decoding are collaborators given as values in an environment; every
    call the view makes on the viewer, and every question it asks the user,
    is recorded as an event. */
module MessageViews {
  import opened Common
  import opened MimeParts
  import QuoteURL

  // ---------------------------------------------------------------------
  // Events, settings and collaborators
  // ---------------------------------------------------------------------

  /** A text style: a colour and the encoding of its font (System when no
      font is set). */
  datatype Style = Style(colour: Colour, enc: Encoding)

  /** The yes/no questions the view asks: a message or part over the size
      threshold (sizes in Kb), and an image over the inline limit. */
  datatype Prompt =
    | SizePrompt(kb: nat, maxKb: nat, part: bool)
    | ImagePrompt(limitKb: int)

  /** What the view does, in order: the viewer calls, and the questions. */
  datatype Event =
    | Clear
    | StartHeaders
    | ShowRawHeaders(header: string)
    | ShowHeader(name: string, value: string, enc: Encoding)
    | ShowXFace(face: string)
    | EndHeaders
    | StartBody
    | EndBody
    | StartPart
    | EndPart
    | InsertText(text: string, style: Style)
    | InsertURL(url: string)
    | InsertRawContents(data: string)
    | InsertImage(section: string, caption: string)
    | InsertAttachment(section: string, caption: string)
    | Asked(prompt: Prompt)

  /** The colours of quoting levels 1 to QuoteLevelMax. */
  type QuotedColours = s: seq<Colour> | |s| == QuoteLevelMax
    witness [NullColour, NullColour, NullColour]

  /** The profile values the view reads. headers is the ':'-separated list
      of headers to show; inlineGFX is 0 when images are never inlined,
      -1 when always, and otherwise the inline limit in Kb; maxMessageSize
      is the download threshold in Kb. */
  datatype Settings = Settings(
    showHeaders: bool,
    showFaces: bool,
    headers: string,
    highlightURLs: bool,
    quotedColourize: bool,
    quotedCycleColours: bool,
    fgCol: Colour,
    quotedCol: QuotedColours,
    inlinePlainText: bool,
    inlineRFC822: bool,
    inlineGFX: int,
    autoEncoding: bool,
    maxMessageSize: nat)

  /** A URL finder: it splits a text into the text before its first URL,
      the URL and the rest, which is empty when no URL was found. */
  type UrlFinder = f: string -> (string, string, string) | QuoteURL.FinderSplits(f)
    witness (t: string) => (t, [], [])

  /** The type of the folder the message comes from. */
  datatype FolderKind = Imap | Pop | Nntp | LocalFolder

  /** The settings and the collaborators of one view. findUrl splits text
      into the text before the first URL, the URL and the rest;
      countQuotes is the quoting-level counter; extensionType is the MIME
      type the system associates with a filename extension; imageLoads
      says whether image data can be decoded. */
  datatype Env = Env(
    settings: Settings,
    folder: FolderKind,
    answer: Prompt -> bool,
    canProcess: string -> bool,
    canInlineImages: bool,
    extensionType: string -> Option<string>,
    findUrl: UrlFinder,
    countQuotes: string -> nat,
    charsetToEncoding: string -> Encoding,
    imageLoads: string -> bool,
    faceDecodes: string -> bool)

  /** A message as the view reads it: the raw header, the decoded value
      and encoding of each envelope header (by its index in
      EnvelopeNames), of any other header line, and the top MIME part. */
  datatype MailMessage = MailMessage(
    rawHeader: string,
    envelope: nat -> (string, Encoding),
    headerLine: string -> (string, Encoding),
    size: nat,
    top: Node)

  // ---------------------------------------------------------------------
  // NormalizeString
  // ---------------------------------------------------------------------

  /** The first letter upper-cased and the rest lower-cased. */
  function Normalize(s: string): (r: string)
    ensures |r| == |s|
    ensures s != [] ==> r[0] == UpperChar(s[0])
    ensures forall i :: 0 < i < |s| ==> r[i] == LowerChar(s[i])
  {
    if s == [] then [] else Upper([s[0]]) + Lower(s[1..])
  }

  lemma CaseChars(c: char)
    ensures LowerChar(UpperChar(c)) == LowerChar(c)
    ensures UpperChar(LowerChar(c)) == UpperChar(c)
    ensures LowerChar(LowerChar(c)) == LowerChar(c)
    ensures UpperChar(UpperChar(c)) == UpperChar(c)
  {
  }

  /** Two strings normalize alike exactly when they are equal ignoring
      case: the normalized form is a canonical representative. */
  lemma NormalizeIsCanonical(a: string, b: string)
    ensures Normalize(a) == Normalize(b) <==> EqualsNoCase(a, b)
  {
    if Normalize(a) == Normalize(b) && a != [] {
      assert |a| == |b|;
      forall i | 0 <= i < |a|
        ensures Lower(a)[i] == Lower(b)[i]
      {
        if i == 0 {
          assert Normalize(a)[0] == UpperChar(a[0]) && Normalize(b)[0] == UpperChar(b[0]);
          CaseChars(a[0]);
          CaseChars(b[0]);
        } else {
          assert Normalize(a)[i] == LowerChar(a[i]) && Normalize(b)[i] == LowerChar(b[i]);
        }
      }
      assert Lower(a) == Lower(b);
    }
    if EqualsNoCase(a, b) && a != [] {
      assert |Lower(a)| == |Lower(b)|;
      assert Lower(a)[0] == Lower(b)[0];
      CaseChars(a[0]);
      CaseChars(b[0]);
      forall i | 0 <= i < |a|
        ensures Normalize(a)[i] == Normalize(b)[i]
      {
        assert Lower(a)[i] == Lower(b)[i];
      }
    }
  }

  /** Normalizing twice changes nothing. */
  lemma NormalizeIdempotent(s: string)
    ensures Normalize(Normalize(s)) == Normalize(s)
  {
    var n := Normalize(s);
    forall i | 0 <= i < |s|
      ensures Normalize(n)[i] == n[i]
    {
      CaseChars(s[i]);
    }
  }

  // ---------------------------------------------------------------------
  // Quoting levels and their colours
  // ---------------------------------------------------------------------

  /** GetQuotedLevel: the counted quoting level of text, kept when it has
      a colour of its own, otherwise cycled or clamped. */
  function QuotedLevel(e: Env, text: string): (q: nat)
    ensures q <= QuoteLevelMax
    ensures e.countQuotes(text) <= QuoteLevelMax ==> q == e.countQuotes(text)
    ensures q == 0 <==> e.countQuotes(text) == 0
    ensures e.countQuotes(text) > QuoteLevelMax && !e.settings.quotedCycleColours ==> q == QuoteLevelMax
    ensures e.settings.quotedCycleColours ==> q % QuoteLevelMax == e.countQuotes(text) % QuoteLevelMax
  {
    ClampLevelSpec(e.countQuotes(text), e.settings.quotedCycleColours);
    ClampLevel(e.countQuotes(text), e.settings.quotedCycleColours)
  }

  /** GetQuoteColour: level 0 is the foreground colour, levels 1..3 the
      quoted colours, anything deeper the invalid colour. */
  function QuoteColour(s: Settings, level: nat): (c: Colour)
  {
    if level == 0 then s.fgCol
    else if level - 1 < QuoteLevelMax then s.quotedCol[level - 1]
    else NullColour
  }

  /** Every level GetQuotedLevel computes has a configured colour: the
      foreground colour exactly for unquoted text, the colour of its own
      level for quoted text. */
  lemma QuotedLevelHasColour(e: Env, text: string)
    ensures e.countQuotes(text) == 0 ==> QuoteColour(e.settings, QuotedLevel(e, text)) == e.settings.fgCol
    ensures e.countQuotes(text) > 0 ==>
      QuoteColour(e.settings, QuotedLevel(e, text)) == e.settings.quotedCol[QuotedLevel(e, text) - 1]
  {
  }

  // ---------------------------------------------------------------------
  // The encoding of a text part
  // ---------------------------------------------------------------------

  /** The encoding a text part is shown in and the new automatic
      encoding, given the user's encoding, whether automatic detection is
      on, the current automatic encoding and the part's own encoding. */
  function PartEncoding(user: Encoding, autoDetect: bool, auto: Encoding, charset: Encoding): (r: (Encoding, Encoding))
  {
    if user != System then (user, auto)
    else if autoDetect then
      if charset == System || charset == Default then (auto, auto)
      else if auto == System then (charset, charset)
      else (charset, auto)
    else (System, auto)
  }

  /** The cascade: a user encoding always wins and leaves the automatic
      one alone; with detection off nothing is used; a part without a
      charset inherits the automatic encoding; a part's own charset is
      used for it, and remembered only when nothing was remembered yet. */
  lemma PartEncodingCascade(user: Encoding, autoDetect: bool, auto: Encoding, charset: Encoding)
    ensures user != System ==> PartEncoding(user, autoDetect, auto, charset) == (user, auto)
    ensures user == System && !autoDetect ==> PartEncoding(user, autoDetect, auto, charset) == (System, auto)
    ensures user == System && autoDetect && charset in {System, Default} ==>
      PartEncoding(user, autoDetect, auto, charset) == (auto, auto)
    ensures user == System && autoDetect && charset !in {System, Default} ==>
      PartEncoding(user, autoDetect, auto, charset).0 == charset
    ensures PartEncoding(user, autoDetect, auto, charset).1 != auto ==> auto == System
  {
  }

  /** The automatic encoding after a sequence of text parts with the given
      charsets. */
  function AutoAfter(user: Encoding, autoDetect: bool, auto: Encoding, charsets: seq<Encoding>): Encoding
    decreases |charsets|
  {
    if charsets == [] then auto
    else AutoAfter(user, autoDetect, PartEncoding(user, autoDetect, auto, charsets[0]).1, charsets[1..])
  }

  /** The first definite charset, System if there is none. */
  function FirstCharset(charsets: seq<Encoding>): Encoding
    decreases |charsets|
  {
    if charsets == [] then System
    else if charsets[0] != System && charsets[0] != Default then charsets[0]
    else FirstCharset(charsets[1..])
  }

  /** First wins: starting with no automatic encoding, the parts leave the
      charset of the first part that has one; a user encoding, disabled
      detection or an already-known encoding leave it unchanged. */
  lemma {:induction false} AutoIsFirstCharset(user: Encoding, autoDetect: bool, auto: Encoding, charsets: seq<Encoding>)
    ensures AutoAfter(user, autoDetect, auto, charsets) ==
      if user == System && autoDetect && auto == System then FirstCharset(charsets) else auto
    decreases |charsets|
  {
    if charsets != [] {
      AutoIsFirstCharset(user, autoDetect, PartEncoding(user, autoDetect, auto, charsets[0]).1, charsets[1..]);
    }
  }

  // ---------------------------------------------------------------------
  // Size gates
  // ---------------------------------------------------------------------

  /** CheckMessageOrPartSize: sizes up to the threshold (in whole Kb) pass
      without a question; bigger ones are put to the user. */
  function SizeCheck(size: nat, maxKb: nat, part: bool, answer: Prompt -> bool): (r: (bool, seq<Event>))
  {
    if size / 1024 <= maxKb then (true, [])
    else
      var p := SizePrompt(size / 1024, maxKb, part);
      (answer(p), [Asked(p)])
  }

  /** No question is asked exactly below (maxKb + 1) Kb, and then the
      answer is yes; above it the user is asked once, about the size in
      whole Kb, and decides. */
  lemma SizeCheckSilentIff(size: nat, maxKb: nat, part: bool, answer: Prompt -> bool)
    ensures SizeCheck(size, maxKb, part, answer).1 == [] <==> size < 1024 * (maxKb + 1)
    ensures SizeCheck(size, maxKb, part, answer).1 == [] ==> SizeCheck(size, maxKb, part, answer).0
    ensures size >= 1024 * (maxKb + 1) ==>
      SizeCheck(size, maxKb, part, answer) ==
        (answer(SizePrompt(size / 1024, maxKb, part)), [Asked(SizePrompt(size / 1024, maxKb, part))])
  {
    if size < 1024 * (maxKb + 1) {
      assert size / 1024 <= maxKb;
    } else {
      assert size / 1024 >= maxKb + 1;
    }
  }

  /** CheckMessagePartSize: parts are checked only in IMAP folders. */
  function PartSizeCheck(e: Env, size: nat): (r: (bool, seq<Event>))
  {
    if e.folder != Imap then (true, []) else SizeCheck(size, e.settings.maxMessageSize, true, e.answer)
  }

  /** CheckMessageSize: whole messages are checked only in POP and NNTP
      folders. */
  function MessageSizeCheck(e: Env, size: nat): (r: (bool, seq<Event>))
  {
    if e.folder != Pop && e.folder != Nntp then (true, [])
    else SizeCheck(size, e.settings.maxMessageSize, false, e.answer)
  }

  /** The part gate and the message gate never both ask about the same
      folder; local folders ask neither. */
  lemma SizeGatesDisjoint(e: Env, partSize: nat, messageSize: nat)
    ensures PartSizeCheck(e, partSize).1 == [] || MessageSizeCheck(e, messageSize).1 == []
    ensures e.folder == LocalFolder ==> PartSizeCheck(e, partSize) == (true, []) && MessageSizeCheck(e, messageSize) == (true, [])
    ensures PartSizeCheck(e, partSize).1 != [] ==> e.folder == Imap
    ensures MessageSizeCheck(e, messageSize).1 != [] ==> e.folder in {Pop, Nntp}
  {
  }

  // ---------------------------------------------------------------------
  // Attachment labels
  // ---------------------------------------------------------------------

  /** GetLabelFor: "file : " when the part has a filename, the full MIME
      type, and for anything but a multipart ", N lines" (a text part
      with a line count) or ", N bytes". */
  function LabelFor(b: Body): string
  {
    var t := b.Type();
    LabelHead(b)
    + (if t.primary == Multipart then []
       else ", " + (if t.IsText() && b.lines != 0 then NatToString(b.lines) + " lines"
                    else NatToString(b.size) + " bytes"))
  }

  /** The part of a label before the size: "file : " if any, then the type. */
  function LabelHead(b: Body): string
  {
    var fileName := Filename(b);
    (if fileName != [] then fileName + " : " else []) + b.Type().Full()
  }

  lemma CancelAround(p: string, a: string, b: string, s: string)
    requires p + a + s == p + b + s
    ensures a == b
  {
    assert a == (p + a + s)[|p|..|p| + |a|];
    assert |a| == |b|;
    assert b == (p + b + s)[|p|..|p| + |b|];
  }

  /** The label of a part labelled by its size in bytes. */
  lemma SizedLabel(b: Body)
    requires b.Type().primary != Multipart && !b.Type().IsText()
    ensures LabelFor(b) == LabelHead(b) + ", " + NatToString(b.size) + " bytes"
  {
    var h, n := LabelHead(b), NatToString(b.size);
    calc {
      LabelFor(b);
      h + (", " + (n + " bytes"));
      { assert ", " + (n + " bytes") == ", " + n + " bytes"; }
      h + (", " + n + " bytes");
      h + ", " + n + " bytes";
    }
  }

  /** A multipart's label is its filename and type alone; two other parts
      of the same name and type that are labelled by size have the same
      label only when they have the same size. */
  lemma LabelShowsSize(b1: Body, b2: Body)
    ensures b1.Type().primary == Multipart ==>
      LabelFor(b1) == (if Filename(b1) != [] then Filename(b1) + " : " else []) + b1.Type().Full()
    ensures (Filename(b1) == Filename(b2) && b1.Type() == b2.Type() && b1.Type().primary != Multipart
             && !b1.Type().IsText() && LabelFor(b1) == LabelFor(b2)) ==> b1.size == b2.size
  {
    if b1.Type().primary == Multipart {
      assert LabelFor(b1) == LabelHead(b1) + [];
    }
    if Filename(b1) == Filename(b2) && b1.Type() == b2.Type() && b1.Type().primary != Multipart
      && !b1.Type().IsText() && LabelFor(b1) == LabelFor(b2)
    {
      SizedLabel(b1);
      SizedLabel(b2);
      assert LabelHead(b2) == LabelHead(b1);
      CancelAround(LabelHead(b1) + ", ", NatToString(b1.size), NatToString(b2.size), " bytes");
      NatToStringInjective(b1.size, b2.size);
    }
  }

  // ---------------------------------------------------------------------
  // Inline images
  // ---------------------------------------------------------------------

  /** size_t arithmetic wraps modulo 2^64. */
  const SizeTModulus: int := 0x1_0000_0000_0000_0000

  /** 1024 * (size_t)inlineGFX, as computed. */
  function InlineLimit(inlineGFX: int): nat
  {
    (1024 * (inlineGFX % SizeTModulus)) % SizeTModulus
  }

  /** ShowImage's decision to inline an image of the given size, and the
      question it asks on the way. */
  function InlineImage(e: Env, size: nat): (r: (bool, seq<Event>))
  {
    if !e.canInlineImages then (false, [])
    else if e.settings.inlineGFX == -1 then (true, [])
    else if e.settings.inlineGFX == 0 then (false, [])
    else if size > InlineLimit(e.settings.inlineGFX) then
      var p := ImagePrompt(e.settings.inlineGFX);
      (e.answer(p), [Asked(p)])
    else (true, [])
  }

  /** A viewer that cannot inline images never does and never asks; 0
      never inlines, -1 always does, and a positive limit asks exactly
      for images bigger than that many Kb and inlines smaller ones. */
  lemma InlineImageDecision(e: Env, size: nat)
    ensures !e.canInlineImages ==> InlineImage(e, size) == (false, [])
    ensures e.canInlineImages && e.settings.inlineGFX == 0 ==> InlineImage(e, size) == (false, [])
    ensures e.canInlineImages && e.settings.inlineGFX == -1 ==> InlineImage(e, size) == (true, [])
    ensures e.canInlineImages && 0 < e.settings.inlineGFX && 1024 * e.settings.inlineGFX < SizeTModulus ==>
      (InlineImage(e, size).1 != [] <==> size > 1024 * e.settings.inlineGFX) &&
      (size <= 1024 * e.settings.inlineGFX ==> InlineImage(e, size).0)
  {
    if e.canInlineImages && 0 < e.settings.inlineGFX && 1024 * e.settings.inlineGFX < SizeTModulus {
      assert InlineLimit(e.settings.inlineGFX) == 1024 * e.settings.inlineGFX;
    }
  }

  // ---------------------------------------------------------------------
  // How one part is shown
  // ---------------------------------------------------------------------

  /** The four ways ShowPart renders a non-empty part. */
  datatype Rendering = Raw | AsText | AsImage | AsAttachment

  /** wxMimeTypesManager::IsOfType(mt, major + "/" + "*"): the major
      type matches ignoring case. */
  predicate IsOfMajor(mt: string, major: string)
  {
    EqualsNoCase(BeforeFirst(mt, '/'), major)
  }

  /** The primary type ShowPart works with: an APPLICATION part whose
      filename extension the system maps to an image, audio or video type
      is taken to be one. */
  function RefinedPrimary(e: Env, t: MimeType, fileName: string): Primary
  {
    if t.primary != Application then t.primary
    else
      var ext := AfterLast(fileName, '.');
      if ext == [] then Application
      else match e.extensionType(ext)
        case None => Application
        case Some(mt) =>
          if IsOfMajor(mt, "image") then Image
          else if IsOfMajor(mt, "audio") then Audio
          else if IsOfMajor(mt, "video") then Video
          else Application
  }

  /** Only an APPLICATION part is re-typed, only through a non-empty
      extension the system knows, and only to image, audio or video. */
  lemma RetypedOnlyByExtension(e: Env, t: MimeType, fileName: string)
    ensures RefinedPrimary(e, t, fileName) != t.primary ==>
      && t.primary == Application
      && AfterLast(fileName, '.') != []
      && e.extensionType(AfterLast(fileName, '.')).Some?
      && RefinedPrimary(e, t, fileName) in {Image, Audio, Video}
  {
  }

  /** ShowPart's choice: what the viewer processes itself, then text,
      then images, then everything else as an attachment. */
  function Branch(e: Env, b: Body): Rendering
  {
    var t := b.Type();
    var mimeType := t.Full();
    var fileName := Filename(b);
    var primary := RefinedPrimary(e, t, fileName);
    var isAttachment := EqualsNoCase(b.disposition, "attachment");
    if !isAttachment && e.canProcess(mimeType) then Raw
    else if !isAttachment &&
      ((mimeType == "TEXT/PLAIN" && (fileName == [] || e.settings.inlinePlainText)) ||
       (primary == Message && e.settings.inlineRFC822)) then AsText
    else if primary == Image then AsImage
    else AsAttachment
  }

  /** An "attachment" disposition, in any case, rules out the raw and
      text renderings but not the image one: such a part is shown as an
      image exactly when its (refined) type is an image. */
  lemma AttachmentDisposition(e: Env, b: Body)
    requires EqualsNoCase(b.disposition, "attachment")
    ensures Branch(e, b) in {AsImage, AsAttachment}
    ensures Branch(e, b) == AsImage <==> RefinedPrimary(e, b.Type(), Filename(b)) == Image
  {
  }

  /** The viewer's own formats win over everything else when the part is
      not an attachment. */
  lemma ViewerFormatsFirst(e: Env, b: Body)
    requires !EqualsNoCase(b.disposition, "attachment")
    ensures Branch(e, b) == Raw <==> e.canProcess(b.Type().Full())
  {
  }

  function AttachmentCalls(node: Node): seq<Event>
  {
    [InsertAttachment(node.spec, LabelFor(node.body))]
  }

  /** The raw branch: the size gate, then the contents unless they are
      empty or cannot be fetched. */
  function RawCalls(e: Env, node: Node): seq<Event>
  {
    var check := PartSizeCheck(e, node.body.size);
    if !check.0 then check.1
    else
      var data := node.content.GetOr([]);
      if data == [] then check.1 else check.1 + [InsertRawContents(data)]
  }

  /** ShowImage: inline when decided so and the image decodes, nothing
      when its data cannot be fetched, otherwise as an attachment. */
  function ImageCalls(e: Env, node: Node): seq<Event>
  {
    var d := InlineImage(e, node.body.size);
    if !d.0 then d.1 + AttachmentCalls(node)
    else match node.content
      case None => d.1
      case Some(data) =>
        if e.imageLoads(data) then d.1 + [InsertImage(node.spec, LabelFor(node.body))]
        else d.1 + AttachmentCalls(node)
  }

  // ---------------------------------------------------------------------
  // Text parts: quote colouring and URL splitting
  // ---------------------------------------------------------------------

  /** The text an event shows: a run's text or a URL. */
  function PieceOf(ev: Event): string
  {
    match ev
    case InsertText(t, _) => t
    case InsertURL(u) => u
    case _ => []
  }

  /** The texts and URLs of the events, concatenated. */
  function Pieces(evs: seq<Event>): string
    decreases |evs|
  {
    if evs == [] then [] else PieceOf(evs[0]) + Pieces(evs[1..])
  }

  lemma {:induction false} PiecesAppend(a: seq<Event>, b: seq<Event>)
    ensures Pieces(a + b) == Pieces(a) + Pieces(b)
    decreases |a|
  {
    if a == [] {
      assert a + b == b;
    } else {
      assert (a + b)[0] == a[0];
      assert (a + b)[1..] == a[1..] + b;
      PiecesAppend(a[1..], b);
    }
  }

  /** The colouring loop over b from position pos, the current line
      starting at from: each line is inserted with the style in effect,
      then the colour becomes that of the quoting level of the text after
      the newline. */
  function Lines(e: Env, b: string, from: nat, pos: nat, style: Style): (r: (seq<Event>, Style))
    requires from <= pos <= |b|
    ensures forall k :: 0 <= k < |r.0| ==> r.0[k].InsertText? && r.0[k].text != []
    ensures forall k :: 0 <= k < |r.0| - 1 ==> r.0[k].text[|r.0[k].text| - 1] == '\n'
    decreases |b| - pos
  {
    if pos == |b| then
      (if from < |b| then [InsertText(b[from..], style)] else [], style)
    else if b[pos] == '\n' then
      var r := Lines(e, b, pos + 1, pos + 1, NextStyle(e, b, pos, style));
      ([InsertText(b[from..pos + 1], style)] + r.0, r.1)
    else Lines(e, b, from, pos + 1, style)
  }

  /** The style after a newline at pos: the colour of the quoting level
      of the text after it. */
  function NextStyle(e: Env, b: string, pos: nat, style: Style): Style
    requires pos < |b|
  {
    style.(colour := QuoteColour(e.settings, QuotedLevel(e, b[pos + 1..])))
  }

  lemma LinesAtNewline(e: Env, b: string, from: nat, pos: nat, style: Style)
    requires from <= pos < |b| && b[pos] == '\n'
    ensures Lines(e, b, from, pos, style).0 ==
      [InsertText(b[from..pos + 1], style)] + Lines(e, b, pos + 1, pos + 1, NextStyle(e, b, pos, style)).0
  {
  }

  lemma PiecesOfLine(b: string, from: nat, to: nat, style: Style, rest: seq<Event>)
    requires from <= to <= |b|
    ensures Pieces([InsertText(b[from..to], style)] + rest) == b[from..to] + Pieces(rest)
  {
    PiecesAppend([InsertText(b[from..to], style)], rest);
    assert Pieces([InsertText(b[from..to], style)]) == b[from..to] + Pieces([]);
  }

  /** The lines cover the text exactly. */
  lemma {:induction false} LinesPieces(e: Env, b: string, from: nat, pos: nat, style: Style)
    requires from <= pos <= |b|
    ensures Pieces(Lines(e, b, from, pos, style).0) == b[from..]
    decreases |b| - pos
  {
    if pos == |b| {
      LinesPiecesAtEnd(e, b, from, style);
    } else if b[pos] == '\n' {
      var next := NextStyle(e, b, pos, style);
      LinesAtNewline(e, b, from, pos, style);
      LinesPieces(e, b, pos + 1, pos + 1, next);
      LinesPiecesJoin(b, from, pos, style, Lines(e, b, pos + 1, pos + 1, next).0);
    } else {
      LinesInsideLine(e, b, from, pos, style);
      LinesPieces(e, b, from, pos + 1, style);
    }
  }

  lemma LinesPiecesAtEnd(e: Env, b: string, from: nat, style: Style)
    requires from <= |b|
    ensures Pieces(Lines(e, b, from, |b|, style).0) == b[from..]
  {
    if from < |b| {
      PiecesOfLine(b, from, |b|, style, []);
      assert b[from..|b|] == b[from..];
    }
  }

  lemma LinesPiecesJoin(b: string, from: nat, pos: nat, style: Style, rest: seq<Event>)
    requires from <= pos < |b| && Pieces(rest) == b[pos + 1..]
    ensures Pieces([InsertText(b[from..pos + 1], style)] + rest) == b[from..]
  {
    PiecesOfLine(b, from, pos + 1, style, rest);
    assert b[from..] == b[from..pos + 1] + b[pos + 1..];
  }

  lemma LinesInsideLine(e: Env, b: string, from: nat, pos: nat, style: Style)
    requires from <= pos < |b| && b[pos] != '\n'
    ensures Lines(e, b, from, pos, style) == Lines(e, b, from, pos + 1, style)
  {
  }

  /** One round of the do/while loop: the text before a URL (colourized
      line by line, or inserted whole), then the URL, as a link when
      highlighting or as text in the current style otherwise; and the
      style in effect afterwards. */
  function Round(e: Env, before: string, url: string, style: Style): (r: (seq<Event>, Style))
    ensures forall k :: 0 <= k < |r.0| ==> r.0[k].InsertText? || (e.settings.highlightURLs && r.0[k].InsertURL?)
  {
    var lines := if e.settings.quotedColourize then Lines(e, before, 0, 0, style) else ([InsertText(before, style)], style);
    var urlCalls :=
      if url == [] then []
      else if e.settings.highlightURLs then [InsertURL(url)]
      else [InsertText(url, lines.1)];
    (lines.0 + urlCalls, lines.1)
  }

  /** The do/while loop over the URLs of text, until no text is left
      after the last URL. */
  function Rounds(e: Env, text: string, style: Style): (r: seq<Event>)
    ensures forall k :: 0 <= k < |r| ==> r[k].InsertText? || r[k].InsertURL?
    ensures !e.settings.highlightURLs ==> forall k :: 0 <= k < |r| ==> r[k].InsertText?
    decreases |text|
  {
    var split := e.findUrl(text);
    var round := Round(e, split.0, split.1, style);
    if split.2 == [] then round.0
    else
      assert split.0 + split.1 + split.2 == text;
      round.0 + Rounds(e, split.2, round.1)
  }

  /** The events of a text part's contents shown in encoding enc. */
  function TextCalls(e: Env, enc: Encoding, text: string): (r: seq<Event>)
  {
    var style := Style(NullColour, enc);
    if e.settings.highlightURLs || e.settings.quotedColourize then
      Rounds(e, text, style.(colour := QuoteColour(e.settings, QuotedLevel(e, text))))
    else [InsertText(text, style)]
  }

  lemma RoundPieces(e: Env, before: string, url: string, style: Style)
    ensures Pieces(Round(e, before, url, style).0) == before + url
  {
    var lines := if e.settings.quotedColourize then Lines(e, before, 0, 0, style) else ([InsertText(before, style)], style);
    var urlCalls :=
      if url == [] then []
      else if e.settings.highlightURLs then [InsertURL(url)]
      else [InsertText(url, lines.1)];
    if e.settings.quotedColourize {
      LinesPieces(e, before, 0, 0, style);
      assert before[0..] == before;
    } else {
      assert Pieces(lines.0) == before + Pieces([]);
    }
    assert Pieces(urlCalls) == url + Pieces([]);
    PiecesAppend(lines.0, urlCalls);
  }

  lemma {:induction false} RoundsPieces(e: Env, text: string, style: Style)
    ensures Pieces(Rounds(e, text, style)) == text
    decreases |text|
  {
    var split := e.findUrl(text);
    var round := Round(e, split.0, split.1, style);
    assert split.0 + split.1 + split.2 == text;
    RoundPieces(e, split.0, split.1, style);
    if split.2 != [] {
      RoundsPieces(e, split.2, round.1);
      PiecesAppend(round.0, Rounds(e, split.2, round.1));
    }
  }

  /** Nothing of a text part is lost or repeated: its runs and URLs put
      together are its text; with highlighting off everything, URLs
      included, is inserted as text. */
  lemma TextCallsCoverText(e: Env, enc: Encoding, text: string)
    ensures Pieces(TextCalls(e, enc, text)) == text
    ensures !e.settings.highlightURLs ==> forall ev <- TextCalls(e, enc, text) :: ev.InsertText?
  {
    var style := Style(NullColour, enc);
    if e.settings.highlightURLs || e.settings.quotedColourize {
      RoundsPieces(e, text, style.(colour := QuoteColour(e.settings, QuotedLevel(e, text))));
    } else {
      assert Pieces([InsertText(text, style)]) == text;
    }
  }

  /** ShowTextPart: the size gate, the encoding cascade, then the text. */
  function TextPartCalls(e: Env, user: Encoding, auto: Encoding, node: Node): (r: (seq<Event>, Encoding))
  {
    var check := PartSizeCheck(e, node.body.size);
    if !check.0 then (check.1, auto)
    else
      var enc := PartEncoding(user, e.settings.autoEncoding, auto, TextEncoding(node.body, e.charsetToEncoding));
      (check.1 + TextCalls(e, enc.0, node.content.GetOr([])), enc.1)
  }

  /** What ShowPart shows of a non-empty part, in the chosen rendering,
      and the automatic encoding afterwards: only a text part can change
      it. */
  function Inner(e: Env, user: Encoding, auto: Encoding, node: Node): (r: (seq<Event>, Encoding))
  {
    match Branch(e, node.body)
    case Raw => (RawCalls(e, node), auto)
    case AsText => TextPartCalls(e, user, auto, node)
    case AsImage => (ImageCalls(e, node), auto)
    case AsAttachment => (AttachmentCalls(node), auto)
  }

  /** ShowPart: nothing for an empty part, otherwise its rendering between
      StartPart and EndPart. */
  function PartCalls(e: Env, user: Encoding, auto: Encoding, node: Node): (r: (seq<Event>, Encoding))
  {
    if node.body.size == 0 then ([], auto)
    else
      var inner := Inner(e, user, auto, node);
      ([StartPart] + inner.0 + [EndPart], inner.1)
  }

  /** An event that shows part contents or asks about them. */
  predicate IsContent(ev: Event)
  {
    ev.InsertText? || ev.InsertURL? || ev.InsertRawContents? || ev.InsertImage? || ev.InsertAttachment? || ev.Asked?
  }

  lemma InnerIsContent(e: Env, user: Encoding, auto: Encoding, node: Node)
    ensures forall ev <- Inner(e, user, auto, node).0 :: IsContent(ev)
  {
    match Branch(e, node.body)
    case Raw => SizeCheckAsks(e, node.body.size);
    case AsText => TextPartIsContent(e, user, auto, node);
    case AsImage => ImageIsContent(e, node);
    case AsAttachment =>
  }

  /** The part size gate only asks. */
  lemma SizeCheckAsks(e: Env, size: nat)
    ensures forall ev <- PartSizeCheck(e, size).1 :: ev.Asked?
  {
  }

  lemma TextPartIsContent(e: Env, user: Encoding, auto: Encoding, node: Node)
    ensures forall ev <- TextPartCalls(e, user, auto, node).0 :: IsContent(ev)
  {
    SizeCheckAsks(e, node.body.size);
    if PartSizeCheck(e, node.body.size).0 {
      var enc := PartEncoding(user, e.settings.autoEncoding, auto, TextEncoding(node.body, e.charsetToEncoding));
      var t := TextCalls(e, enc.0, node.content.GetOr([]));
      assert forall ev <- t :: ev.InsertText? || ev.InsertURL?;
    }
  }

  lemma ImageIsContent(e: Env, node: Node)
    ensures forall ev <- ImageCalls(e, node) :: IsContent(ev)
  {
    var d := InlineImage(e, node.body.size);
    assert forall ev <- d.1 :: ev.Asked?;
  }

  /** An empty part shows nothing; every other part is bracketed by
      exactly one StartPart/EndPart pair with only contents between. */
  lemma PartBracketed(e: Env, user: Encoding, auto: Encoding, node: Node)
    ensures node.body.size == 0 ==> PartCalls(e, user, auto, node) == ([], auto)
    ensures node.body.size != 0 ==>
      var c := PartCalls(e, user, auto, node).0;
      && |c| >= 2 && c[0] == StartPart && c[|c| - 1] == EndPart
      && forall k :: 0 < k < |c| - 1 ==> IsContent(c[k])
  {
    if node.body.size != 0 {
      InnerIsContent(e, user, auto, node);
      var inner := Inner(e, user, auto, node).0;
      var c := PartCalls(e, user, auto, node).0;
      assert c == [StartPart] + inner + [EndPart];
      forall k | 0 < k < |c| - 1
        ensures IsContent(c[k])
      {
        assert c[k] == inner[k - 1];
        assert inner[k - 1] in inner;
      }
    }
  }

  // ---------------------------------------------------------------------
  // Which parts are shown
  // ---------------------------------------------------------------------

  /** A child ProcessPart prefers within MULTIPART/ALTERNATIVE: plain text
      or a type the viewer can process. */
  predicate Preferred(e: Env, n: Node)
  {
    IsPlainText(n.body.Type()) || e.canProcess(n.body.Type().Full())
  }

  /** The test for "TEXT/PLAIN", on the parts of the type. */
  predicate IsPlainText(t: MimeType)
  {
    t.primary == Text && t.subtype == "PLAIN"
  }

  /** IsPlainText is the comparison of the full type with "TEXT/PLAIN". */
  lemma IsPlainTextIff(t: MimeType)
    ensures IsPlainText(t) <==> t.Full() == "TEXT/PLAIN"
  {
    if t.primary == Text {
      assert t.Full() == "TEXT/" + t.subtype;
      if t.Full() == "TEXT/PLAIN" {
        assert t.subtype == t.Full()[5..];
      }
    } else {
      assert t.Full()[0] != 'T';
    }
  }

  /** The alternative shown: the last preferred child, or the first child
      when none is preferred. */
  function BestIndex(e: Env, cs: seq<Node>): (k: nat)
    requires |cs| > 0
    ensures k < |cs|
    ensures forall j :: k < j < |cs| ==> !Preferred(e, cs[j])
    ensures Preferred(e, cs[k]) || k == 0
  {
    BestAmong(e, cs, |cs|)
  }

  /** BestIndex among the first n children. */
  function BestAmong(e: Env, cs: seq<Node>, n: nat): (k: nat)
    requires 0 < n <= |cs|
    ensures k < n
    ensures forall j :: k < j < n ==> !Preferred(e, cs[j])
    ensures Preferred(e, cs[k]) || k == 0
  {
    if Preferred(e, cs[n - 1]) || n == 1 then n - 1
    else BestAmong(e, cs, n - 1)
  }

  /** The parts ProcessPart hands to ShowPart, in order. */
  function Shown(e: Env, node: Node): seq<Node>
    decreases node, 1, 0
  {
    var t := node.body.Type();
    match t.primary
    case Multipart =>
      if t.subtype == "ALTERNATIVE" then
        (if node.children == [] then [] else [node.children[BestIndex(e, node.children)]])
      else ShownFrom(e, node, 0)
    case Message => (if e.settings.inlineRFC822 then ShownFrom(e, node, 0) else []) + [node]
    case Invalid => []
    case _ => [node]
  }

  /** ProcessAllNestedParts from the i-th child on. */
  function ShownFrom(e: Env, node: Node, i: nat): seq<Node>
    requires i <= |node.children|
    decreases node, 0, |node.children| - i
  {
    if i == |node.children| then [] else Shown(e, node.children[i]) + ShownFrom(e, node, i + 1)
  }

  /** The concatenation of a list of lists. */
  function Concat<T>(xss: seq<seq<T>>): seq<T>
    decreases |xss|
  {
    if xss == [] then [] else xss[0] + Concat(xss[1..])
  }

  /** The parts each child of node would show on its own, in sibling
      order. */
  function ChildParts(e: Env, node: Node): (r: seq<seq<Node>>)
    ensures |r| == |node.children|
  {
    seq(|node.children|, k requires 0 <= k < |node.children| => Shown(e, node.children[k]))
  }

  lemma {:induction false} ShownFromIsConcat(e: Env, node: Node, i: nat)
    requires i <= |node.children|
    ensures ShownFrom(e, node, i) == Concat(ChildParts(e, node)[i..])
    decreases |node.children| - i
  {
    var xs := ChildParts(e, node)[i..];
    if i < |node.children| {
      ShownFromIsConcat(e, node, i + 1);
      assert xs[0] == Shown(e, node.children[i]);
      assert xs[1..] == ChildParts(e, node)[i + 1..];
    } else {
      assert xs == [];
    }
  }

  /** MULTIPART/ALTERNATIVE shows exactly one child (the last preferred,
      else the first); any other multipart shows all its children's parts
      in sibling order; a message shows its own part last, after its
      nested parts when RFC822 messages are inlined. */
  lemma PartSelection(e: Env, node: Node)
    ensures var t := node.body.Type();
      t.primary == Multipart && t.subtype == "ALTERNATIVE" && node.children != [] ==>
        exists k :: 0 <= k < |node.children| && Shown(e, node) == [node.children[k]] &&
          (forall j :: k < j < |node.children| ==> !Preferred(e, node.children[j])) &&
          (Preferred(e, node.children[k]) || (k == 0 && forall j :: 0 <= j < |node.children| ==> !Preferred(e, node.children[j])))
    ensures var t := node.body.Type();
      t.primary == Multipart && t.subtype != "ALTERNATIVE" ==> Shown(e, node) == Concat(ChildParts(e, node))
    ensures node.body.Type().primary == Message ==>
      Shown(e, node) == (if e.settings.inlineRFC822 then Concat(ChildParts(e, node)) else []) + [node]
  {
    var t := node.body.Type();
    var cs := node.children;
    ShownFromIsConcat(e, node, 0);
    assert ChildParts(e, node)[0..] == ChildParts(e, node);
    if t.primary == Multipart && t.subtype == "ALTERNATIVE" && cs != [] {
      var k := BestIndex(e, cs);
      assert Shown(e, node) == [cs[k]];
    }
  }

  /** The events of showing parts one after another with step, threading
      the automatic encoding through them. */
  function Thread(step: (Encoding, Node) -> (seq<Event>, Encoding), auto: Encoding, parts: seq<Node>): (r: (seq<Event>, Encoding))
    decreases |parts|
  {
    if parts == [] then ([], auto)
    else
      var p := step(auto, parts[0]);
      var r := Thread(step, p.1, parts[1..]);
      (p.0 + r.0, r.1)
  }

  lemma {:induction false} ThreadAppend(step: (Encoding, Node) -> (seq<Event>, Encoding), auto: Encoding, a: seq<Node>, b: seq<Node>)
    ensures Thread(step, auto, a + b).0 == Thread(step, auto, a).0 + Thread(step, Thread(step, auto, a).1, b).0
    ensures Thread(step, auto, a + b).1 == Thread(step, Thread(step, auto, a).1, b).1
    decreases |a|
  {
    if a == [] {
      assert a + b == b;
    } else {
      assert (a + b)[0] == a[0];
      assert (a + b)[1..] == a[1..] + b;
      ThreadAppend(step, step(auto, a[0]).1, a[1..], b);
    }
  }

  /** ShowPart as a step of Thread. */
  function PartStep(e: Env, user: Encoding): (Encoding, Node) -> (seq<Event>, Encoding)
  {
    (a: Encoding, n: Node) => PartCalls(e, user, a, n)
  }

  /** The events of showing the given parts one after another. */
  function RenderParts(e: Env, user: Encoding, auto: Encoding, parts: seq<Node>): (r: (seq<Event>, Encoding))
  {
    Thread(PartStep(e, user), auto, parts)
  }

  /** Rendering the parts shown from child i on: child i's, then the rest. */
  lemma RenderChildStep(e: Env, user: Encoding, auto: Encoding, node: Node, i: nat)
    requires i < |node.children|
    ensures var here := RenderParts(e, user, auto, Shown(e, node.children[i]));
      var rest := RenderParts(e, user, here.1, ShownFrom(e, node, i + 1));
      RenderParts(e, user, auto, ShownFrom(e, node, i)) == (here.0 + rest.0, rest.1)
  {
    assert ShownFrom(e, node, i) == Shown(e, node.children[i]) + ShownFrom(e, node, i + 1);
    RenderPartsAppend(e, user, auto, Shown(e, node.children[i]), ShownFrom(e, node, i + 1));
  }

  /** Showing one part is ShowPart on it. */
  lemma RenderOne(e: Env, user: Encoding, auto: Encoding, n: Node)
    ensures RenderParts(e, user, auto, [n]) == PartCalls(e, user, auto, n)
  {
    var p := PartStep(e, user)(auto, n);
    assert p == PartCalls(e, user, auto, n);
    assert [n][1..] == [];
    assert Thread(PartStep(e, user), p.1, []) == ([], p.1);
    assert p.0 + [] == p.0;
  }

  /** Showing two lists of parts one after the other shows their
      concatenation, the second starting from the encoding the first
      leaves. */
  lemma RenderPartsAppend(e: Env, user: Encoding, auto: Encoding, a: seq<Node>, b: seq<Node>)
    ensures RenderParts(e, user, auto, a + b).0
      == RenderParts(e, user, auto, a).0 + RenderParts(e, user, RenderParts(e, user, auto, a).1, b).0
    ensures RenderParts(e, user, auto, a + b).1 == RenderParts(e, user, RenderParts(e, user, auto, a).1, b).1
  {
    ThreadAppend(PartStep(e, user), auto, a, b);
  }

  // ---------------------------------------------------------------------
  // Headers
  // ---------------------------------------------------------------------

  /** The headers that can be taken from the envelope, in the order of
      their indices. */
  const EnvelopeNames: seq<string> :=
    ["From", "To", "Cc", "Bcc", "Subject", "Date", "Newsgroups", "Message-Id", "In-Reply-To", "References"]

  /** wxArrayString::Index(h, false): the first name equal ignoring case. */
  function IndexNoCase(names: seq<string>, h: string): (r: Option<nat>)
    ensures r.Some? ==> r.value < |names|
    decreases |names|
  {
    if names == [] then None
    else if EqualsNoCase(names[0], h) then Some(0)
    else match IndexNoCase(names[1..], h)
      case None => None
      case Some(k) => Some(k + 1)
  }

  /** IndexNoCase finds the first name equal to h ignoring case, and
      finds nothing only when there is none. */
  lemma {:induction false} IndexNoCaseSpec(names: seq<string>, h: string)
    ensures IndexNoCase(names, h).Some? ==>
      var k := IndexNoCase(names, h).value;
      EqualsNoCase(names[k], h) && forall j :: 0 <= j < k ==> !EqualsNoCase(names[j], h)
    ensures IndexNoCase(names, h).None? <==> forall j :: 0 <= j < |names| ==> !EqualsNoCase(names[j], h)
    decreases |names|
  {
    if names != [] && !EqualsNoCase(names[0], h) {
      IndexNoCaseSpec(names[1..], h);
      assert forall j :: 1 <= j < |names| ==> names[j] == names[1..][j - 1];
    }
  }

  /** wxArrayString::Index(h): the first name equal as written. */
  function IndexExact(names: seq<string>, h: string): (r: Option<nat>)
    ensures r.Some? ==> r.value < |names| && names[r.value] == h
    ensures r.None? ==> h !in names
    decreases |names|
  {
    if names == [] then None
    else if names[0] == h then Some(0)
    else match IndexExact(names[1..], h)
      case None => None
      case Some(k) => Some(k + 1)
  }

  /** Whether the header is taken from the envelope. */
  predicate IsEnvelope(envelope: seq<string>, h: string)
  {
    IndexNoCase(envelope, h).Some?
  }

  /** The value and encoding of the configured header h: from the
      envelope when it is an envelope header (in any case), otherwise
      from the header lines. */
  function HeaderValue(envelope: seq<string>, m: MailMessage, h: string): (string, Encoding)
  {
    match IndexNoCase(envelope, h)
    case Some(k) => m.envelope(k)
    case None => m.headerLine(h)
  }

  /** The list without its last name when that one is empty. */
  function DropTrailingEmpty(user: seq<string>): (r: seq<string>)
    ensures r <= user
  {
    if |user| > 0 && user[|user| - 1] == [] then user[..|user| - 1] else user
  }

  /** The headers to show: the configured list (with X-Face first when
      faces are shown), without one trailing empty name. */
  function ConfiguredHeaders(s: Settings): (names: seq<string>)
    ensures s.showFaces ==> |names| >= 1 && names[0] == "X-Face"
  {
    var user := (if s.showFaces then ["X-Face"] else []) + Split(s.headers, ':');
    assert s.showFaces ==> user[0] == "X-Face";
    DropTrailingEmpty(user)
  }

  /** Splitting a joined list whose last name is not empty gives it back. */
  lemma SplitOfJoin(ts: seq<string>)
    requires ts != [] && ts[|ts| - 1] != []
    requires forall t <- ts :: ':' !in t
    ensures Join(ts, ':') != []
    ensures Split(Join(ts, ':'), ':') == ts
  {
    var init := ts[..|ts| - 1];
    assert ts == init + [ts[|ts| - 1]];
    JoinSnoc(init, ts[|ts| - 1], ':');
    SplitAllJoin(ts, ':');
  }

  /** A trailing ':' adds one empty name. */
  lemma SplitTrailing(ts: seq<string>)
    requires ts != [] && ts[|ts| - 1] != []
    requires forall t <- ts :: ':' !in t
    ensures Split(Join(ts, ':') + ":", ':') == ts + [[]]
  {
    SplitOfJoin(ts);
    var tz := ts + [[]];
    JoinSnoc(ts, [], ':');
    assert Join(tz, ':') == Join(ts, ':') + ":";
    assert forall t <- tz :: ':' !in t;
    SplitAllJoin(tz, ':');
  }

  /** A configured list is taken as it is, and a trailing ':' after it
      changes nothing. */
  lemma TrailingSeparatorIgnored(s: Settings, ts: seq<string>)
    requires !s.showFaces && ts != [] && ts[|ts| - 1] != []
    requires forall t <- ts :: ':' !in t
    requires s.headers == Join(ts, ':') || s.headers == Join(ts, ':') + ":"
    ensures ConfiguredHeaders(s) == ts
  {
    if s.headers == Join(ts, ':') {
      SplitOfJoin(ts);
      assert Split(s.headers, ':') == ts;
    } else {
      SplitTrailing(ts);
      var tz := ts + [[]];
      assert Split(s.headers, ':') == tz;
      assert tz[..|tz| - 1] == ts;
    }
  }

  /** The values of the configured headers, in configured order. */
  function MergedValues(envelope: seq<string>, m: MailMessage, names: seq<string>): (r: seq<(string, Encoding)>)
    ensures |r| == |names|
  {
    seq(|names|, i requires 0 <= i < |names| => HeaderValue(envelope, m, names[i]))
  }

  /** The merge as written: an envelope header is recognised in any case
      but looked up again with case, and when that lookup fails its value
      is skipped, so the values no longer line up with the names. */
  function MergeAsWritten(m: MailMessage, names: seq<string>): seq<(string, Encoding)>
    decreases |names|
  {
    if names == [] then []
    else
      var h := names[0];
      var v :=
        if IsEnvelope(EnvelopeNames, h) then
          match IndexExact(EnvelopeNames, h)
          case None => []
          case Some(k) => [m.envelope(k)]
        else [m.headerLine(h)];
      v + MergeAsWritten(m, names[1..])
  }

  /** The first name equal to h ignoring case is the one IndexNoCase finds. */
  lemma IndexNoCaseFirst(names: seq<string>, h: string, k: nat)
    requires k < |names| && EqualsNoCase(names[k], h)
    requires forall j :: 0 <= j < k ==> |names[j]| != |h|
    ensures IndexNoCase(names, h) == Some(k)
  {
    IndexNoCaseSpec(names, h);
  }

  /** "subject" is recognised as the envelope's Subject. */
  lemma SubjectIsEnvelope()
    ensures IndexNoCase(EnvelopeNames, "subject") == Some(4)
  {
    var names := EnvelopeNames;
    var low := Lower(names[4]);
    assert names[4] == "Subject";
    assert forall i :: 0 <= i < 7 ==> low[i] == "subject"[i];
    assert low == Lower("subject");
    IndexNoCaseFirst(names, "subject", 4);
  }

  /** "subject" is not spelt as any envelope name. */
  lemma SubjectNotExact()
    ensures IndexExact(EnvelopeNames, "subject") == None
  {
    assert forall j :: 0 <= j < |EnvelopeNames| ==> EnvelopeNames[j] != "subject";
  }

  /** No envelope name has the length of "X-Mailer". */
  lemma MailerNotEnvelope()
    ensures IndexNoCase(EnvelopeNames, "X-Mailer") == None
  {
    IndexNoCaseSpec(EnvelopeNames, "X-Mailer");
    forall j | 0 <= j < |EnvelopeNames|
      ensures !EqualsNoCase(EnvelopeNames[j], "X-Mailer")
    {
      EnvelopeNameLength(j);
    }
  }

  /** No envelope header name has as many letters as "X-Mailer" or
      "X-Face". */
  lemma EnvelopeNameLength(i: nat)
    requires i < |EnvelopeNames|
    ensures |EnvelopeNames[i]| != 8 && |EnvelopeNames[i]| != 6
  {
  }

  /** X-Face is not an envelope header, so its value is a header line. */
  lemma FaceNotEnvelope()
    ensures IndexNoCase(EnvelopeNames, "X-Face") == None
  {
    IndexNoCaseSpec(EnvelopeNames, "X-Face");
    forall j | 0 <= j < |EnvelopeNames|
      ensures !EqualsNoCase(EnvelopeNames[j], "X-Face")
    {
      EnvelopeNameLength(j);
    }
  }

  /** The merge as written on ["subject", "X-Mailer"]. */
  lemma MergeAsWrittenDrops(m: MailMessage)
    ensures MergeAsWritten(m, ["subject", "X-Mailer"]) == [m.headerLine("X-Mailer")]
  {
    SubjectIsEnvelope();
    SubjectNotExact();
    MailerNotEnvelope();
    var names: seq<string> := ["subject", "X-Mailer"];
    assert names[1..] == ["X-Mailer"];
    assert MergeAsWritten(m, names[1..]) == [m.headerLine("X-Mailer")] + MergeAsWritten(m, []);
  }

  /** "subject" is an envelope header but not spelt as in the table: the
      merge as written drops its value, so the value shown next to
      "subject" is that of X-Mailer and X-Mailer has none; the corrected
      merge keeps both in place. There are fewer values than names, so the
      display loop, which runs over the names, reads one value past the
      end. */
  lemma MergeAsWrittenMisaligns(m: MailMessage)
    ensures MergeAsWritten(m, ["subject", "X-Mailer"]) == [m.headerLine("X-Mailer")]
    ensures |MergeAsWritten(m, ["subject", "X-Mailer"])| < |["subject", "X-Mailer"]|
    ensures MergedValues(EnvelopeNames, m, ["subject", "X-Mailer"]) == [m.envelope(4), m.headerLine("X-Mailer")]
  {
    MergeAsWrittenDrops(m);
    SubjectIsEnvelope();
    MailerNotEnvelope();
    var r := MergedValues(EnvelopeNames, m, ["subject", "X-Mailer"]);
    assert r[0] == m.envelope(4);
    assert r[1] == m.headerLine("X-Mailer");
  }

  /** The encoding of the last header that carries one, System when none
      does. */
  function LastEncoding(values: seq<(string, Encoding)>): (r: Encoding)
    decreases |values|
  {
    if values == [] then System
    else if values[|values| - 1].1 != System then values[|values| - 1].1
    else LastEncoding(values[..|values| - 1])
  }

  lemma {:induction false} LastEncodingIsLast(values: seq<(string, Encoding)>)
    ensures LastEncoding(values) == System <==> forall k :: 0 <= k < |values| ==> values[k].1 == System
    ensures LastEncoding(values) != System ==>
      exists k :: 0 <= k < |values| && values[k].1 == LastEncoding(values) &&
        forall j :: k < j < |values| ==> values[j].1 == System
    decreases |values|
  {
    if values == [] {
    } else if values[|values| - 1].1 != System {
      assert values[|values| - 1].1 == LastEncoding(values);
    } else {
      var init := values[..|values| - 1];
      LastEncodingIsLast(init);
      assert LastEncoding(values) == LastEncoding(init);
      if LastEncoding(init) != System {
        var k :| 0 <= k < |init| && init[k].1 == LastEncoding(init) &&
          forall j :: k < j < |init| ==> init[j].1 == System;
        assert values[k] == init[k];
        assert forall j :: k < j < |values| ==> values[j].1 == System by {
          forall j | k < j < |values|
            ensures values[j].1 == System
          {
            if j < |init| {
              assert values[j] == init[j];
            }
          }
        }
      } else {
        assert forall j :: 0 <= j < |init| ==> values[j] == init[j];
      }
    }
  }

  /** The encoding a header is shown in: its own, else the user's. */
  function HeaderEncoding(user: Encoding, enc: Encoding): Encoding
  {
    if enc != System then enc else user
  }

  /** The ShowHeader calls for the given names and values. */
  function HeaderLines(user: Encoding, names: seq<string>, values: seq<(string, Encoding)>): (r: seq<Event>)
    requires |names| == |values|
    ensures |r| == |names|
  {
    seq(|names|, i requires 0 <= i < |names| => ShowHeader(names[i], values[i].0, HeaderEncoding(user, values[i].1)))
  }

  /** The face icon for an X-Face value: shown only when the value is
      longer than 20 characters and decodes to an image. */
  function FaceEvents(e: Env, face: string): (r: seq<Event>)
    ensures r != [] <==> |face| > 20 && e.faceDecodes(face)
    ensures r != [] ==> r == [ShowXFace(face)]
  {
    if |face| > 20 && e.faceDecodes(face) then [ShowXFace(face)] else []
  }

  /** The first header ShowHeaders shows as a line: X-Face, which comes
      first when faces are shown, is shown as an icon instead. */
  function HeaderStart(s: Settings): nat
  {
    if s.showFaces then 1 else 0
  }

  /** ShowHeaders: its events and the new automatic encoding (None when
      it is left alone because no header is configured). */
  function Headers(e: Env, user: Encoding, m: MailMessage): (r: (seq<Event>, Option<Encoding>))
  {
    var s := e.settings;
    var pre := [StartHeaders] + (if s.showHeaders then [ShowRawHeaders(m.rawHeader)] else []);
    var names := ConfiguredHeaders(s);
    if names == [] then (pre, None)
    else
      var values := MergedValues(EnvelopeNames, m, names);
      var start := HeaderStart(s);
      var face := if s.showFaces then FaceEvents(e, values[0].0) else [];
      (pre + face + HeaderLines(user, names[start..], values[start..]) + [EndHeaders],
       Some(LastEncoding(values[start..])))
  }

  /** The events ShowHeaders emits for the X-Face header. */
  function FaceShown(e: Env, m: MailMessage): seq<Event>
  {
    if e.settings.showFaces then FaceEvents(e, m.headerLine("X-Face").0) else []
  }

  /** With X-Face shown, it is the first configured header, so the list is
      never empty. */
  lemma FacesFirst(s: Settings)
    requires s.showFaces
    ensures ConfiguredHeaders(s) != [] && ConfiguredHeaders(s)[0] == "X-Face"
  {
    var user := Split(s.headers, ':');
    assert ConfiguredHeaders(s) == ["X-Face"] + DropTrailingEmpty(user);
  }

  /** The header block: the raw header when asked for, the face icon, one
      line per configured header from HeaderStart on, and the end. */
  lemma HeaderBlock(e: Env, user: Encoding, m: MailMessage)
    requires ConfiguredHeaders(e.settings) != []
    ensures var s := e.settings;
      var names := ConfiguredHeaders(s);
      var values := MergedValues(EnvelopeNames, m, names);
      && HeaderStart(s) <= |names|
      && Headers(e, user, m).0
        == [StartHeaders] + (if s.showHeaders then [ShowRawHeaders(m.rawHeader)] else []) + FaceShown(e, m)
           + HeaderLines(user, names[HeaderStart(s)..], values[HeaderStart(s)..]) + [EndHeaders]
      && Headers(e, user, m).1 == Some(LastEncoding(values[HeaderStart(s)..]))
  {
    var s := e.settings;
    if s.showFaces {
      FacesFirst(s);
      FaceNotEnvelope();
      var values := MergedValues(EnvelopeNames, m, ConfiguredHeaders(s));
      assert values[0] == HeaderValue(EnvelopeNames, m, "X-Face") == m.headerLine("X-Face");
    }
  }

  /** With faces shown, the event right after the raw header is the face
      icon exactly when the X-Face value is long enough and decodes. */
  lemma FaceIconFirst(e: Env, user: Encoding, m: MailMessage)
    requires e.settings.showFaces
    ensures var pre := 1 + (if e.settings.showHeaders then 1 else 0);
      var face := m.headerLine("X-Face").0;
      && |Headers(e, user, m).0| > pre
      && (Headers(e, user, m).0[pre] == ShowXFace(face) <==> |face| > 20 && e.faceDecodes(face))
  {
    var s := e.settings;
    FacesFirst(s);
    HeaderBlock(e, user, m);
    var names := ConfiguredHeaders(s);
    var values := MergedValues(EnvelopeNames, m, names);
    var pre := [StartHeaders] + (if s.showHeaders then [ShowRawHeaders(m.rawHeader)] else []);
    var lines := HeaderLines(user, names[1..], values[1..]);
    HeaderLinesAreLines(user, names[1..], values[1..]);
    EventAfterPrefix(pre, FaceShown(e, m), lines, m.headerLine("X-Face").0);
  }

  /** Header lines are ShowHeader calls only. */
  lemma HeaderLinesAreLines(user: Encoding, names: seq<string>, values: seq<(string, Encoding)>)
    requires |names| == |values|
    ensures forall k :: 0 <= k < |names| ==> HeaderLines(user, names, values)[k].ShowHeader?
  {
  }

  /** In a header block the event after the prefix is the face icon exactly
      when the block has one. */
  lemma EventAfterPrefix(pre: seq<Event>, face: seq<Event>, lines: seq<Event>, x: string)
    requires face == [] || face == [ShowXFace(x)]
    requires forall k :: 0 <= k < |lines| ==> lines[k].ShowHeader?
    ensures |pre + face + lines + [EndHeaders]| > |pre|
    ensures (pre + face + lines + [EndHeaders])[|pre|] == ShowXFace(x) <==> face != []
  {
    var block := pre + face + lines + [EndHeaders];
    if face == [] {
      if lines != [] {
        assert block[|pre|] == lines[0];
      } else {
        assert block[|pre|] == EndHeaders;
      }
    } else {
      assert block[|pre|] == face[0];
    }
  }

  lemma IndexInMiddle(pre: seq<Event>, mid: seq<Event>, post: seq<Event>, i: nat)
    requires i < |mid|
    ensures (pre + mid + post)[|pre| + i] == mid[i]
  {
  }

  /** The merged value at k is the value of the k-th name. */
  lemma MergedValueAt(m: MailMessage, names: seq<string>, k: nat)
    requires k < |names|
    ensures MergedValues(EnvelopeNames, m, names)[k] == HeaderValue(EnvelopeNames, m, names[k])
  {
  }

  /** Line i of the header lines from `start` shows header start + i. */
  lemma LineOfHeader(user: Encoding, names: seq<string>, values: seq<(string, Encoding)>, start: nat, i: nat)
    requires |names| == |values| && start + i < |names|
    ensures HeaderLines(user, names[start..], values[start..])[i]
      == ShowHeader(names[start + i], values[start + i].0, HeaderEncoding(user, values[start + i].1))
  {
    assert names[start..][i] == names[start + i];
    assert values[start..][i] == values[start + i];
  }

  /** Every configured header from HeaderStart on is shown in configured
      order, after the face icon, with its own value, in its own encoding
      or else the user's; the automatic encoding becomes that of the last
      shown header that has one. */
  lemma HeadersShownInOrder(e: Env, user: Encoding, m: MailMessage, i: nat)
    requires ConfiguredHeaders(e.settings) != [] && HeaderStart(e.settings) + i < |ConfiguredHeaders(e.settings)|
    ensures var s := e.settings;
      var pre := 1 + (if s.showHeaders then 1 else 0) + |FaceShown(e, m)|;
      var h := ConfiguredHeaders(s)[HeaderStart(s) + i];
      var v := HeaderValue(EnvelopeNames, m, h);
      Headers(e, user, m).0[pre + i] == ShowHeader(h, v.0, if v.1 != System then v.1 else user)
    ensures Headers(e, user, m).1
      == Some(LastEncoding(MergedValues(EnvelopeNames, m, ConfiguredHeaders(e.settings))[HeaderStart(e.settings)..]))
  {
    var s := e.settings;
    HeaderBlock(e, user, m);
    var names := ConfiguredHeaders(s);
    var values := MergedValues(EnvelopeNames, m, names);
    var start := HeaderStart(s);
    var pre := [StartHeaders] + (if s.showHeaders then [ShowRawHeaders(m.rawHeader)] else []) + FaceShown(e, m);
    var lines := HeaderLines(user, names[start..], values[start..]);
    assert Headers(e, user, m).0 == pre + lines + [EndHeaders];
    IndexInMiddle(pre, lines, [EndHeaders], i);
    LineOfHeader(user, names, values, start, i);
    MergedValueAt(m, names, start + i);
  }

  /** The whole message: headers, then the body between StartBody and
      EndBody. Without configured headers the automatic encoding of the
      previous message is kept. */
  function Render(e: Env, user: Encoding, auto: Encoding, m: MailMessage): (r: (seq<Event>, Encoding))
  {
    var h := Headers(e, user, m);
    var a := if h.1.Some? then h.1.value else auto;
    var body := RenderParts(e, user, a, Shown(e, m.top));
    (h.0 + [StartBody] + body.0 + [EndBody], body.1)
  }

  // ---------------------------------------------------------------------
  // The loops
  // ---------------------------------------------------------------------

  /** The colouring loop over one piece of text. */
  method ColourLines(e: Env, before: string, style0: Style) returns (events: seq<Event>, style: Style)
    ensures events == Lines(e, before, 0, 0, style0).0
    ensures style == Lines(e, before, 0, 0, style0).1
  {
    events := [];
    style := style0;
    var lineFrom := 0;
    for linePos := 0 to |before|
      invariant lineFrom <= linePos
      invariant Lines(e, before, 0, 0, style0).0 == events + Lines(e, before, lineFrom, linePos, style).0
      invariant Lines(e, before, 0, 0, style0).1 == Lines(e, before, lineFrom, linePos, style).1
    {
      if before[linePos] == '\n' {
        LinesAtNewline(e, before, lineFrom, linePos, style);
        var level := QuotedLevel(e, before[linePos + 1..]);
        events := events + [InsertText(before[lineFrom..linePos + 1], style)];
        style := style.(colour := QuoteColour(e.settings, level));
        lineFrom := linePos + 1;
      }
    }
    if lineFrom < |before| {
      events := events + [InsertText(before[lineFrom..], style)];
    }
  }

  /** One pass of ShowTextPart's do/while loop, after the URL finder has
      split off the text before the URL. */
  method ShowRound(e: Env, before: string, url: string, style0: Style) returns (events: seq<Event>, style: Style)
    ensures events == Round(e, before, url, style0).0
    ensures style == Round(e, before, url, style0).1
  {
    style := style0;
    if e.settings.quotedColourize {
      events, style := ColourLines(e, before, style);
    } else {
      events := [InsertText(before, style)];
    }
    if url != [] {
      if e.settings.highlightURLs {
        events := events + [InsertURL(url)];
      } else {
        events := events + [InsertText(url, style)];
      }
    }
  }

  lemma RoundsUnfold(e: Env, text: string, style: Style)
    ensures var split := e.findUrl(text);
      var round := Round(e, split.0, split.1, style);
      && split.0 + split.1 + split.2 == text
      && Rounds(e, text, style) == round.0 + (if split.2 == [] then [] else Rounds(e, split.2, round.1))
  {
  }

  /** The text of a part shown in encoding enc. */
  method RenderText(e: Env, enc: Encoding, text: string) returns (events: seq<Event>)
    ensures events == TextCalls(e, enc, text)
  {
    var style := Style(NullColour, enc);
    if e.settings.highlightURLs || e.settings.quotedColourize {
      var level := QuotedLevel(e, text);
      style := style.(colour := QuoteColour(e.settings, level));
      ghost var style0 := style;
      var textPart := text;
      events := [];
      while true
        invariant events + Rounds(e, textPart, style) == Rounds(e, text, style0)
        decreases |textPart|
      {
        RoundsUnfold(e, textPart, style);
        ghost var here := textPart;
        var split := e.findUrl(textPart);
        var roundEvents;
        roundEvents, style := ShowRound(e, split.0, split.1, style);
        textPart := split.2;
        events := events + roundEvents;
        if textPart == [] {
          break;
        }
        assert |textPart| < |here|;
      }
    } else {
      events := [InsertText(text, style)];
    }
  }

  /** The alternative ProcessPart picks, scanning the children forwards. */
  method FindBest(e: Env, cs: seq<Node>) returns (best: nat)
    requires |cs| > 0
    ensures best == BestIndex(e, cs)
  {
    best := 0;
    for i := 0 to |cs|
      invariant i > 0 ==> best == BestAmong(e, cs, i)
      invariant i == 0 ==> best == 0
    {
      var t := cs[i].body.Type();
      if IsPlainText(t) || e.canProcess(t.Full()) {
        best := i;
      }
    }
  }

  /** The headers of names not taken from the envelope, in order. */
  function NonEnvelope(envelope: seq<string>, names: seq<string>): (r: seq<string>)
    ensures |r| <= |names|
    decreases |names|
  {
    if names == [] then []
    else
      var last := names[|names| - 1];
      NonEnvelope(envelope, names[..|names| - 1]) + (if IsEnvelope(envelope, last) then [] else [last])
  }

  /** The non-envelope headers of a prefix are a prefix of all of them. */
  lemma {:induction false} NonEnvelopePrefix(envelope: seq<string>, names: seq<string>, n: nat)
    requires n <= |names|
    ensures NonEnvelope(envelope, names[..n]) <= NonEnvelope(envelope, names)
    decreases |names| - n
  {
    if n < |names| {
      NonEnvelopePrefix(envelope, names, n + 1);
      assert names[..n + 1][..n] == names[..n];
    } else {
      assert names[..n] == names;
    }
  }

  /** One more name: the non-envelope list grows by that name exactly
      when it is not an envelope header. */
  lemma NonEnvelopeStep(envelope: seq<string>, names: seq<string>, n: nat)
    requires n < |names|
    ensures NonEnvelope(envelope, names[..n + 1])
         == NonEnvelope(envelope, names[..n]) + (if IsEnvelope(envelope, names[n]) then [] else [names[n]])
  {
    assert names[..n + 1][..n] == names[..n];
  }

  /** The n-th non-envelope name in the list of all of them. */
  lemma NonEnvelopeAt(envelope: seq<string>, names: seq<string>, n: nat)
    requires n < |names| && !IsEnvelope(envelope, names[n])
    ensures |NonEnvelope(envelope, names[..n])| < |NonEnvelope(envelope, names)|
    ensures NonEnvelope(envelope, names)[|NonEnvelope(envelope, names[..n])|] == names[n]
  {
    NonEnvelopeStep(envelope, names, n);
    NonEnvelopePrefix(envelope, names, n + 1);
  }

  /** ShowHeaders' first pass: which headers come from the envelope
      (ignoring case), and the list of the others, in order. */
  method ClassifyHeaders(envelope: seq<string>, names: seq<string>) returns (isEnv: seq<bool>, nonEnvNames: seq<string>)
    ensures |isEnv| == |names|
    ensures forall k :: 0 <= k < |names| ==> isEnv[k] == IsEnvelope(envelope, names[k])
    ensures nonEnvNames == NonEnvelope(envelope, names)
  {
    isEnv := [];
    nonEnvNames := [];
    for n := 0 to |names|
      invariant |isEnv| == n
      invariant forall k :: 0 <= k < n ==> isEnv[k] == IsEnvelope(envelope, names[k])
      invariant nonEnvNames == NonEnvelope(envelope, names[..n])
    {
      var index := IndexNoCase(envelope, names[n]);
      isEnv := isEnv + [index.Some?];
      if index.None? {
        nonEnvNames := nonEnvNames + [names[n]];
      }
      NonEnvelopeStep(envelope, names, n);
    }
    assert names[..|names|] == names;
  }

  /** ShowHeaders' merge: the headers are classified, the values of the
      non-envelope ones fetched in one request, and then both kinds
      combined back in configured order, the envelope headers looked up
      ignoring case as they were classified. */
  method MergeHeaderValues(envelope: seq<string>, m: MailMessage, names: seq<string>) returns (values: seq<(string, Encoding)>)
    ensures values == MergedValues(envelope, m, names)
  {
    var isEnv, nonEnvNames := ClassifyHeaders(envelope, names);
    var nonEnvValues := seq(|nonEnvNames|, k requires 0 <= k < |nonEnvNames| => m.headerLine(nonEnvNames[k]));
    values := [];
    var nNonEnv := 0;
    for n := 0 to |names|
      invariant |values| == n
      invariant forall k :: 0 <= k < n ==> values[k] == HeaderValue(envelope, m, names[k])
      invariant nNonEnv == |NonEnvelope(envelope, names[..n])|
    {
      NonEnvelopeStep(envelope, names, n);
      if isEnv[n] {
        var envhdr := IndexNoCase(envelope, names[n]);
        values := values + [m.envelope(envhdr.value)];
      } else {
        NonEnvelopeAt(envelope, names, n);
        values := values + [nonEnvValues[nNonEnv]];
        nNonEnv := nNonEnv + 1;
      }
    }
  }

  /** ShowHeaders' display loop from index start: each header in its own
      encoding or else the user's, remembering the last encoding found. */
  method ShowHeaderLines(user: Encoding, names: seq<string>, values: seq<(string, Encoding)>, start: nat)
    returns (events: seq<Event>, encInHeaders: Encoding)
    requires |names| == |values| && start <= |names|
    ensures events == HeaderLines(user, names[start..], values[start..])
    ensures encInHeaders == LastEncoding(values[start..])
  {
    events := [];
    encInHeaders := System;
    for n := start to |names|
      invariant events == HeaderLines(user, names[start..n], values[start..n])
      invariant encInHeaders == LastEncoding(values[start..n])
    {
      var encHeader := values[n].1;
      if encHeader != System {
        encInHeaders := encHeader;
      } else if user != System {
        encHeader := user;
      }
      events := events + [ShowHeader(names[n], values[n].0, encHeader)];
      HeaderLinesSnoc(user, names, values, start, n);
    }
    assert names[start..|names|] == names[start..];
    assert values[start..|names|] == values[start..];
  }

  /** ShowHeaders' list of headers to show: X-Face first when faces are
      shown, then the configured names, without a trailing empty one. */
  method UserHeaders(s: Settings) returns (names: seq<string>)
    ensures names == ConfiguredHeaders(s)
  {
    var headersUser := (if s.showFaces then ["X-Face"] else []) + Split(s.headers, ':');
    var countHeaders := |headersUser|;
    if countHeaders > 0 && headersUser[countHeaders - 1] == [] {
      countHeaders := countHeaders - 1;
    }
    names := headersUser[..countHeaders];
  }

  /** The header lines and the last encoding over one more header. */
  lemma HeaderLinesSnoc(user: Encoding, names: seq<string>, values: seq<(string, Encoding)>, start: nat, n: nat)
    requires |names| == |values| && start <= n < |names|
    ensures HeaderLines(user, names[start..n + 1], values[start..n + 1])
      == HeaderLines(user, names[start..n], values[start..n])
         + [ShowHeader(names[n], values[n].0, HeaderEncoding(user, values[n].1))]
    ensures LastEncoding(values[start..n + 1])
      == if values[n].1 != System then values[n].1 else LastEncoding(values[start..n])
  {
    var vs := values[start..n + 1];
    assert vs[|vs| - 1] == values[n];
    assert vs[..|vs| - 1] == values[start..n];
  }

  // ---------------------------------------------------------------------
  // The whole message
  // ---------------------------------------------------------------------

  /** With at least one configured header the body's encoding is decided
      by the headers alone, so the message renders the same whatever
      encoding the previous message left behind; without any configured
      header that encoding carries over into the body. */
  lemma RenderAutoStart(e: Env, user: Encoding, auto1: Encoding, auto2: Encoding, m: MailMessage)
    ensures ConfiguredHeaders(e.settings) != [] ==> Render(e, user, auto1, m) == Render(e, user, auto2, m)
    ensures ConfiguredHeaders(e.settings) == [] ==>
      Render(e, user, auto1, m).0 == Headers(e, user, m).0 + [StartBody]
        + RenderParts(e, user, auto1, Shown(e, m.top)).0 + [EndBody]
  {
    var h := Headers(e, user, m);
    if ConfiguredHeaders(e.settings) != [] {
      assert h.1.Some?;
    } else {
      assert h.1 == None;
    }
  }

  /** Concatenations regrouped. Called where a method appends to its log,
      so that the proof of the method body sees only the one regrouping it
      needs instead of unfolding every nested concatenation. */
  lemma Regroup3(a: seq<Event>, b: seq<Event>, c: seq<Event>)
    ensures a + b + c == a + (b + c)
  {
  }

  lemma Regroup(a: seq<Event>, b: seq<Event>, c: seq<Event>, d: seq<Event>)
    ensures a + b + c + d == a + (b + c + d)
  {
  }

  lemma Regroup5(a: seq<Event>, b: seq<Event>, c: seq<Event>, d: seq<Event>, e: seq<Event>)
    ensures a + b + c + d + e == a + (b + c + d + e)
  {
  }

  /** The parts ProcessPart shows, case by case. */
  lemma ShownByType(e: Env, node: Node)
    ensures var t := node.body.Type();
      t.primary == Multipart && t.subtype == "ALTERNATIVE" ==>
        Shown(e, node) == if node.children == [] then [] else [node.children[BestIndex(e, node.children)]]
    ensures var t := node.body.Type();
      t.primary == Multipart && t.subtype != "ALTERNATIVE" ==> Shown(e, node) == ShownFrom(e, node, 0)
    ensures node.body.Type().primary == Message ==>
      Shown(e, node) == (if e.settings.inlineRFC822 then ShownFrom(e, node, 0) else []) + [node]
    ensures node.body.Type().primary == Invalid ==> Shown(e, node) == []
    ensures node.body.Type().primary !in {Multipart, Message, Invalid} ==> Shown(e, node) == [node]
  {
  }

  /** The message view: the viewer calls it has made so far, the
      encoding the user chose (System when none), the encoding detected
      in the current message and the message shown. */
  class MessageView {
    const env: Env
    var encodingUser: Encoding
    var encodingAuto: Encoding
    var message: Option<MailMessage>
    var calls: seq<Event>

    constructor(env: Env)
      ensures this.env == env
      ensures encodingUser == System && encodingAuto == System
      ensures message == None && calls == []
    {
      this.env := env;
      encodingUser := System;
      encodingAuto := System;
      message := None;
      calls := [];
    }

    /** ShowHeaders: the configured headers in order, and the automatic
        encoding taken from them. */
    method ShowHeaders(m: MailMessage)
      modifies this`calls, this`encodingAuto
      ensures calls == old(calls) + Headers(env, encodingUser, m).0
      ensures encodingAuto == Headers(env, encodingUser, m).1.GetOr(old(encodingAuto))
    {
      var s := env.settings;
      var pre := [StartHeaders];
      if s.showHeaders {
        pre := pre + [ShowRawHeaders(m.rawHeader)];
      }
      assert pre == [StartHeaders] + (if s.showHeaders then [ShowRawHeaders(m.rawHeader)] else []);
      var names := UserHeaders(s);
      if |names| == 0 {
        calls := calls + pre;
        return;
      }
      var values := MergeHeaderValues(EnvelopeNames, m, names);
      var start := 0;
      var face := [];
      if s.showFaces {
        var xface := values[start].0;
        start := start + 1;
        if |xface| > 20 && env.faceDecodes(xface) {
          face := [ShowXFace(xface)];
        }
      }
      var events, encInHeaders := ShowHeaderLines(encodingUser, names, values, start);
      assert Headers(env, encodingUser, m) == (pre + face + events + [EndHeaders], Some(encInHeaders));
      calls := calls + (pre + face + events + [EndHeaders]);
      encodingAuto := encInHeaders;
    }

    /** ShowTextPart: the size gate, the encoding cascade, the text. */
    method ShowTextPart(node: Node)
      modifies this`calls, this`encodingAuto
      ensures calls == old(calls) + TextPartCalls(env, encodingUser, old(encodingAuto), node).0
      ensures encodingAuto == TextPartCalls(env, encodingUser, old(encodingAuto), node).1
    {
      var check := PartSizeCheck(env, node.body.size);
      if !check.0 {
        calls := calls + check.1;
        return;
      }
      var charset := TextEncoding(node.body, env.charsetToEncoding);
      var encPart: Encoding;
      if encodingUser != System {
        encPart := encodingUser;
      } else if env.settings.autoEncoding {
        encPart := charset;
        if encPart == System || encPart == Default {
          encPart := encodingAuto;
        } else if encodingAuto == System {
          encodingAuto := encPart;
        }
      } else {
        encPart := System;
      }
      assert (encPart, encodingAuto) == PartEncoding(encodingUser, env.settings.autoEncoding, old(encodingAuto), charset);
      var events := RenderText(env, encPart, node.content.GetOr([]));
      assert TextPartCalls(env, encodingUser, old(encodingAuto), node) == (check.1 + events, encodingAuto);
      calls := calls + (check.1 + events);
    }

    /** ShowAttachment: an attachment entry labelled by GetLabelFor. */
    method ShowAttachment(node: Node)
      modifies this`calls
      ensures calls == old(calls) + AttachmentCalls(node)
    {
      calls := calls + [InsertAttachment(node.spec, LabelFor(node.body))];
    }

    /** ShowImage: inline when the viewer can and the limit allows it (or
        the user agrees), otherwise as an attachment. */
    method ShowImage(node: Node)
      modifies this`calls
      ensures calls == old(calls) + ImageCalls(env, node)
    {
      var showInline := env.canInlineImages;
      if showInline {
        var gfx := env.settings.inlineGFX;
        if gfx == 0 {
          showInline := false;
        } else if gfx != -1 && node.body.size > InlineLimit(gfx) {
          var p := ImagePrompt(gfx);
          calls := calls + [Asked(p)];
          showInline := env.answer(p);
        }
      }
      if showInline {
        if node.content.None? {
          return;
        }
        if env.imageLoads(node.content.value) {
          calls := calls + [InsertImage(node.spec, LabelFor(node.body))];
        } else {
          showInline := false;
        }
      }
      if !showInline {
        ShowAttachment(node);
      }
    }

    /** ShowPart: nothing for an empty part; otherwise StartPart, the
        rendering Branch chooses, EndPart. */
    method ShowPart(node: Node)
      modifies this`calls, this`encodingAuto
      ensures calls == old(calls) + PartCalls(env, encodingUser, old(encodingAuto), node).0
      ensures encodingAuto == PartCalls(env, encodingUser, old(encodingAuto), node).1
    {
      if node.body.size == 0 {
        return;
      }
      ghost var inner := Inner(env, encodingUser, encodingAuto, node);
      calls := calls + [StartPart];
      ShowInner(node);
      calls := calls + [EndPart];
      Regroup(old(calls), [StartPart], inner.0, [EndPart]);
    }

    /** The body of ShowPart for a non-empty part: the rendering Branch
        chooses. */
    method ShowInner(node: Node)
      modifies this`calls, this`encodingAuto
      ensures calls == old(calls) + Inner(env, encodingUser, old(encodingAuto), node).0
      ensures encodingAuto == Inner(env, encodingUser, old(encodingAuto), node).1
    {
      match Branch(env, node.body) {
        case Raw =>
          var check := PartSizeCheck(env, node.body.size);
          var raw := check.1;
          if check.0 {
            var data := node.content.GetOr([]);
            if data != [] {
              raw := raw + [InsertRawContents(data)];
            }
          }
          calls := calls + raw;
        case AsText =>
          ShowTextPart(node);
        case AsImage =>
          ShowImage(node);
        case AsAttachment =>
          ShowAttachment(node);
      }
    }

    /** ProcessPart: what a part shows, by its primary type. */
    method ProcessPart(node: Node)
      modifies this`calls, this`encodingAuto
      ensures calls == old(calls) + RenderParts(env, encodingUser, old(encodingAuto), Shown(env, node)).0
      ensures encodingAuto == RenderParts(env, encodingUser, old(encodingAuto), Shown(env, node)).1
      decreases node, 2
    {
      var t := node.body.Type();
      if t.primary == Multipart && t.subtype == "ALTERNATIVE" {
        ShowAlternative(node);
      } else if t.primary == Multipart {
        ShownByType(env, node);
        ProcessAllNestedParts(node);
      } else if t.primary == Message {
        ProcessMessage(node);
      } else {
        ShownByType(env, node);
        if t.primary != Invalid {
          RenderOne(env, encodingUser, encodingAuto, node);
          ShowPart(node);
        }
      }
    }

    /** MULTIPART/ALTERNATIVE: only the best child. */
    method ShowAlternative(node: Node)
      requires node.body.Type().primary == Multipart && node.body.Type().subtype == "ALTERNATIVE"
      modifies this`calls, this`encodingAuto
      ensures calls == old(calls) + RenderParts(env, encodingUser, old(encodingAuto), Shown(env, node)).0
      ensures encodingAuto == RenderParts(env, encodingUser, old(encodingAuto), Shown(env, node)).1
    {
      ShownByType(env, node);
      if node.children != [] {
        var best := FindBest(env, node.children);
        RenderOne(env, encodingUser, encodingAuto, node.children[best]);
        ShowPart(node.children[best]);
      }
    }

    /** MESSAGE: its nested parts when those are shown inline, then the
        message part itself. */
    method ProcessMessage(node: Node)
      requires node.body.Type().primary == Message
      modifies this`calls, this`encodingAuto
      ensures calls == old(calls) + RenderParts(env, encodingUser, old(encodingAuto), Shown(env, node)).0
      ensures encodingAuto == RenderParts(env, encodingUser, old(encodingAuto), Shown(env, node)).1
      decreases node, 1
    {
      ShownByType(env, node);
      ghost var nested := if env.settings.inlineRFC822 then ShownFrom(env, node, 0) else [];
      assert Shown(env, node) == nested + [node];
      ghost var before := calls;
      ghost var first := RenderParts(env, encodingUser, encodingAuto, nested);
      ghost var second := RenderParts(env, encodingUser, first.1, [node]);
      RenderPartsAppend(env, encodingUser, encodingAuto, nested, [node]);
      RenderOne(env, encodingUser, first.1, node);
      if env.settings.inlineRFC822 {
        ProcessAllNestedParts(node);
      }
      assert calls == before + first.0 && encodingAuto == first.1;
      ShowPart(node);
      assert calls == before + first.0 + second.0 && encodingAuto == second.1;
      Regroup3(before, first.0, second.0);
    }

    /** ProcessAllNestedParts: every child in turn, in sibling order. */
    method ProcessAllNestedParts(node: Node)
      modifies this`calls, this`encodingAuto
      ensures calls == old(calls) + RenderParts(env, encodingUser, old(encodingAuto), ShownFrom(env, node, 0)).0
      ensures encodingAuto == RenderParts(env, encodingUser, old(encodingAuto), ShownFrom(env, node, 0)).1
      decreases node, 0
    {
      ghost var total := RenderParts(env, encodingUser, encodingAuto, ShownFrom(env, node, 0));
      var i := 0;
      while i < |node.children|
        invariant i <= |node.children|
        invariant calls + RenderParts(env, encodingUser, encodingAuto, ShownFrom(env, node, i)).0 == old(calls) + total.0
        invariant RenderParts(env, encodingUser, encodingAuto, ShownFrom(env, node, i)).1 == total.1
        decreases |node.children| - i
      {
        var child := node.children[i];
        ghost var before := calls;
        ghost var here := RenderParts(env, encodingUser, encodingAuto, Shown(env, child));
        ghost var rest := RenderParts(env, encodingUser, here.1, ShownFrom(env, node, i + 1));
        RenderChildStep(env, encodingUser, encodingAuto, node, i);
        ProcessPart(child);
        assert calls == before + here.0 && encodingAuto == here.1;
        Regroup3(before, here.0, rest.0);
        i := i + 1;
      }
    }

    /** Update: clear the viewer, then show the current message if any. */
    method Update()
      modifies this`calls, this`encodingAuto
      ensures message.None? ==> calls == old(calls) + [Event.Clear] && encodingAuto == old(encodingAuto)
      ensures message.Some? ==>
        && calls == old(calls) + [Event.Clear] + Render(env, encodingUser, old(encodingAuto), message.value).0
        && encodingAuto == Render(env, encodingUser, old(encodingAuto), message.value).1
    {
      calls := calls + [Event.Clear];
      if message.None? {
        return;
      }
      var m := message.value;
      ghost var start := calls;
      ghost var h := Headers(env, encodingUser, m);
      ShowHeaders(m);
      calls := calls + [StartBody];
      ghost var body := RenderParts(env, encodingUser, encodingAuto, Shown(env, m.top));
      ProcessPart(m.top);
      calls := calls + [EndBody];
      Regroup5(start, h.0, [StartBody], body.0, [EndBody]);
    }

    /** SetEncoding: the user's choice, applied by showing the message
        again. */
    method SetEncoding(enc: Encoding)
      modifies this`encodingUser, this`calls, this`encodingAuto
      ensures encodingUser == enc
      ensures message.None? ==> calls == old(calls) + [Event.Clear] && encodingAuto == old(encodingAuto)
      ensures message.Some? ==>
        && calls == old(calls) + [Event.Clear] + Render(env, enc, old(encodingAuto), message.value).0
        && encodingAuto == Render(env, enc, old(encodingAuto), message.value).1
    {
      encodingUser := enc;
      Update();
    }

    /** ResetUserEncoding: with automatic detection on, the user's choice
        is forgotten for the next message. */
    method ResetUserEncoding()
      modifies this`encodingUser
      ensures encodingUser == if env.settings.autoEncoding then System else old(encodingUser)
    {
      if env.settings.autoEncoding {
        encodingUser := System;
      }
    }

    /** DoShowMessage: a message too big for a POP or NNTP folder, that
        the user does not want, is not shown; any other becomes the
        current message and is shown. */
    method DoShowMessage(m: MailMessage)
      modifies this`message, this`calls, this`encodingAuto
      ensures var check := MessageSizeCheck(env, m.size);
        if !check.0 then
          message == old(message) && calls == old(calls) + check.1 && encodingAuto == old(encodingAuto)
        else
          && message == Some(m)
          && calls == old(calls) + check.1 + [Event.Clear] + Render(env, encodingUser, old(encodingAuto), m).0
          && encodingAuto == Render(env, encodingUser, old(encodingAuto), m).1
    {
      var check := MessageSizeCheck(env, m.size);
      calls := calls + check.1;
      if !check.0 {
        return;
      }
      message := Some(m);
      Update();
    }

    /** Clear: the viewer is emptied and there is no current message. */
    method Clear()
      modifies this`message, this`calls
      ensures message == None && calls == old(calls) + [Event.Clear]
    {
      calls := calls + [Event.Clear];
      message := None;
    }
  }
}
