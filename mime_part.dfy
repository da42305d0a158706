/** MIME part metadata: MIME types with their parsing and wildcard matching,
    case-insensitive parameter lookup (section 5.1 of RFC 2045), the
    filename fallback order (section 2.3 of RFC 2183), IMAP body section
    numbering (section 6.4.5 of RFC 3501) and the lazily built parameter
    lists of a part. */
module MimeParts {
  import opened Common

  /** The primary MIME categories, in the order of c-client's body_types
      table; Invalid stands for a name that is not in the table. */
  datatype Primary = Text | Multipart | Message | Application | Audio | Image | Video | Model | Other | Invalid

  /** c-client's body_types table: the name of each primary category. */
  const BodyTypes: seq<string> :=
    ["TEXT", "MULTIPART", "MESSAGE", "APPLICATION", "AUDIO", "IMAGE", "VIDEO", "MODEL", "X-UNKNOWN"]

  const Primaries: seq<Primary> :=
    [Text, Multipart, Message, Application, Audio, Image, Video, Model, Other]

  /** The table name of a category; an invalid type has no name. */
  function TypeName(p: Primary): string
  {
    match p
    case Text => "TEXT"
    case Multipart => "MULTIPART"
    case Message => "MESSAGE"
    case Application => "APPLICATION"
    case Audio => "AUDIO"
    case Image => "IMAGE"
    case Video => "VIDEO"
    case Model => "MODEL"
    case Other => "X-UNKNOWN"
    case Invalid => ""
  }

  lemma TypeNameIsTableEntry(n: nat)
    requires n < |Primaries|
    ensures |Primaries| == |BodyTypes| && TypeName(Primaries[n]) == BodyTypes[n]
  {
  }

  /** Every character of s is outside a-z. */
  predicate IsUpperCase(s: string)
  {
    forall i :: 0 <= i < |s| ==> !('a' <= s[i] <= 'z')
  }

  lemma UpperIsUpperCase(s: string)
    ensures IsUpperCase(Upper(s)) && EqualsNoCase(Upper(s), s)
  {
    assert Lower(Upper(s)) == Lower(s);
  }

  /** A MIME type: a primary category and an upper-case subtype. */
  datatype MimeType = MimeType(primary: Primary, subtype: string)
  {
    /** "TYPE/SUBTYPE" (MimeType::GetFull). */
    function Full(): string
    {
      TypeName(primary) + "/" + subtype
    }

    predicate IsText()
    {
      primary == Text
    }
  }

  /** MimeType(primary, subtype): the subtype is stored upper-cased. */
  function MakeMimeType(primary: Primary, subtype: string): (t: MimeType)
    ensures t.primary == primary
    ensures IsUpperCase(t.subtype) && EqualsNoCase(t.subtype, subtype)
  {
    UpperIsUpperCase(subtype);
    MimeType(primary, Upper(subtype))
  }

  /** MimeType::Assign: the category is the first table entry equal to the
      upper-cased text before the first '/', else Invalid; the subtype is
      the upper-cased text after the first '/'. */
  method Assign(mimetype: string) returns (t: MimeType)
    ensures t.subtype == Upper(AfterFirst(mimetype, '/'))
    ensures t.primary == Invalid <==> Upper(BeforeFirst(mimetype, '/')) !in BodyTypes
    ensures t.primary != Invalid ==> TypeName(t.primary) == Upper(BeforeFirst(mimetype, '/'))
  {
    var name := Upper(BeforeFirst(mimetype, '/'));
    var primary := Invalid;
    var n := 0;
    while n < |BodyTypes|
      invariant 0 <= n <= |BodyTypes|
      invariant primary == Invalid
      invariant name !in BodyTypes[..n]
    {
      if name == BodyTypes[n] {
        primary := Primaries[n];
        break;
      }
      n := n + 1;
    }
    if primary != Invalid {
      TypeNameIsTableEntry(n);
    } else {
      assert BodyTypes[..n] == BodyTypes;
    }
    t := MimeType(primary, Upper(AfterFirst(mimetype, '/')));
  }

  /** MimeType::Matches: same category, and the wildcard's subtype is "*"
      or equal to ours. */
  predicate Matches(t: MimeType, wildcard: MimeType)
  {
    t.primary == wildcard.primary && (wildcard.subtype == "*" || t.subtype == wildcard.subtype)
  }

  /** Every type matches itself and the wildcard of its own category. */
  lemma MatchesSelfAndWildcard(t: MimeType)
    ensures Matches(t, t)
    ensures Matches(t, MimeType(t.primary, "*"))
  {
  }

  /** Against a non-wildcard type, matching is equality. */
  lemma MatchesConcreteIsEquality(t: MimeType, w: MimeType)
    requires w.subtype != "*"
    ensures Matches(t, w) <==> t == w
  {
  }

  lemma MatchesTransitive(t: MimeType, u: MimeType, w: MimeType)
    requires Matches(t, u) && Matches(u, w)
    ensures Matches(t, w)
  {
  }

  // ---------------------------------------------------------------------
  // Parameters
  // ---------------------------------------------------------------------

  datatype Param = Param(name: string, value: string)

  /** Index i holds the first parameter whose name equals name, ignoring
      case. */
  predicate FirstMatch(list: seq<Param>, name: string, i: int)
  {
    0 <= i < |list| && EqualsNoCase(list[i].name, name)
    && forall j :: 0 <= j < i ==> !EqualsNoCase(list[j].name, name)
  }

  /** MimePartCC::FindParam: the value of the first parameter whose name
      equals name ignoring case, or "" when there is none. */
  function FindParam(list: seq<Param>, name: string): (r: string)
    ensures (forall i :: 0 <= i < |list| ==> !EqualsNoCase(list[i].name, name)) ==> r == []
    ensures forall i :: 0 <= i < |list| && FirstMatch(list, name, i) ==> r == list[i].value
    decreases |list|
  {
    if list == [] then []
    else if EqualsNoCase(list[0].name, name) then list[0].value
    else
      var r := FindParam(list[1..], name);
      assert forall i :: 0 < i && FirstMatch(list, name, i) ==> FirstMatch(list[1..], name, i - 1);
      r
  }

  /** The part body as c-client describes it. */
  datatype Body = Body(
    primary: Primary,
    subtype: string,
    parameters: seq<Param>,
    disposition: string,
    dispositionParameters: seq<Param>,
    size: nat,
    lines: nat,
    description: string)
  {
    /** MimePartCC::GetType */
    function Type(): MimeType
    {
      MakeMimeType(primary, subtype)
    }
  }

  /** MimePartCC::GetFilename: the disposition "filename", else the type
      "filename", else the type "name", else "". */
  function Filename(b: Body): string
  {
    var fromDisposition := FindParam(b.dispositionParameters, "filename");
    if fromDisposition != [] then fromDisposition
    else
      var fromType := FindParam(b.parameters, "filename");
      if fromType != [] then fromType else FindParam(b.parameters, "name")
  }

  /** A non-empty disposition filename wins over the type parameters. */
  lemma DispositionFilenameWins(b: Body, i: nat)
    requires FirstMatch(b.dispositionParameters, "filename", i)
    requires b.dispositionParameters[i].value != []
    ensures Filename(b) == b.dispositionParameters[i].value
  {
  }

  /** The type "filename" is used only when the disposition gives none, and
      wins over the type "name". */
  lemma TypeFilenameSecond(b: Body, i: nat)
    requires forall k :: 0 <= k < |b.dispositionParameters| ==>
               !EqualsNoCase(b.dispositionParameters[k].name, "filename")
    requires FirstMatch(b.parameters, "filename", i) && b.parameters[i].value != []
    ensures Filename(b) == b.parameters[i].value
  {
  }

  /** The type "name" is the last resort. */
  lemma NameIsLastResort(b: Body, i: nat)
    requires forall k :: 0 <= k < |b.dispositionParameters| ==>
               !EqualsNoCase(b.dispositionParameters[k].name, "filename")
    requires forall k :: 0 <= k < |b.parameters| ==> !EqualsNoCase(b.parameters[k].name, "filename")
    requires FirstMatch(b.parameters, "name", i)
    ensures Filename(b) == b.parameters[i].value
  {
  }

  /** With none of the three parameters present the filename is empty. */
  lemma NoFilenameParameters(b: Body)
    requires forall k :: 0 <= k < |b.dispositionParameters| ==>
               !EqualsNoCase(b.dispositionParameters[k].name, "filename")
    requires forall k :: 0 <= k < |b.parameters| ==>
               !EqualsNoCase(b.parameters[k].name, "filename") && !EqualsNoCase(b.parameters[k].name, "name")
    ensures Filename(b) == []
  {
  }

  /** MimePartCC::GetTextEncoding: no charset parameter means System,
      otherwise the font mapper's encoding for the charset. */
  function TextEncoding(b: Body, charsetToEncoding: string -> Encoding): (e: Encoding)
    ensures FindParam(b.parameters, "charset") == [] ==> e == System
    ensures FindParam(b.parameters, "charset") != [] ==> e == charsetToEncoding(FindParam(b.parameters, "charset"))
  {
    var charset := FindParam(b.parameters, "charset");
    if charset == [] then System else charsetToEncoding(charset)
  }

  // ---------------------------------------------------------------------
  // IMAP body section numbering
  // ---------------------------------------------------------------------

  /** The IMAP section of the part reached from the top-level part through
      the child numbers in path: the top-level part is "1", its children
      are "n", and deeper parts append ".n" to their parent's section. */
  function PartSpec(path: seq<nat>): string
  {
    if path == [] then "1"
    else if |path| == 1 then NatToString(path[0])
    else PartSpec(path[..|path| - 1]) + "." + NatToString(path[|path| - 1])
  }

  function Sections(path: seq<nat>): (r: seq<string>)
    ensures |r| == |path|
    ensures forall i :: 0 <= i < |path| ==> r[i] == NatToString(path[i])
  {
    if path == [] then [] else Sections(path[..|path| - 1]) + [NatToString(path[|path| - 1])]
  }

  /** Below the top level, a section is the dot-joined child numbers. */
  lemma {:induction false} PartSpecIsJoin(path: seq<nat>)
    requires path != []
    ensures PartSpec(path) == Join(Sections(path), '.')
    decreases |path|
  {
    if |path| > 1 {
      var init := path[..|path| - 1];
      PartSpecIsJoin(init);
      JoinSnoc(Sections(init), NatToString(path[|path| - 1]), '.');
    }
  }

  /** Distinct parts below the top level get distinct sections. */
  lemma PartSpecInjective(p: seq<nat>, q: seq<nat>)
    requires p != [] && q != []
    requires PartSpec(p) == PartSpec(q)
    ensures p == q
  {
    PartSpecIsJoin(p);
    PartSpecIsJoin(q);
    forall t <- Sections(p) + Sections(q) ensures t != [] && '.' !in t {
      assert forall c <- t :: IsDigit(c);
    }
    SplitJoin(Sections(p), '.');
    SplitJoin(Sections(q), '.');
    assert Sections(p) == Sections(q);
    forall i | 0 <= i < |p| ensures p[i] == q[i] {
      NatToStringInjective(p[i], q[i]);
    }
  }

  // ---------------------------------------------------------------------
  // A part of a parsed message, with lazily built parameter lists
  // ---------------------------------------------------------------------

  /** MimePartCC::InitParamList: appends the c-client parameter chain to
      list, keeping its order. */
  method InitParamList(list: seq<Param>, chain: seq<Param>) returns (r: seq<Param>)
    ensures r == list + chain
  {
    r := list;
    var i := 0;
    while i < |chain|
      invariant 0 <= i <= |chain|
      invariant r == list + chain[..i]
    {
      r := r + [chain[i]];
      i := i + 1;
    }
    assert chain[..i] == chain;
  }

  class MimePartCC {
    const body: Body
    const parent: MimePartCC?
    /** The message handle; only meaningful on the top-level part. */
    const message: nat
    const spec: string
    /** The child numbers leading to this part from the top-level part. */
    ghost const path: seq<nat>
    ghost const depth: nat
    var parameterList: Option<seq<Param>>
    var dispositionParameterList: Option<seq<Param>>

    /** The parent chain is finite. */
    ghost predicate Linked()
      decreases depth
    {
      parent != null ==> parent.depth < depth && parent.Linked()
    }

    /** A cached list, once built, is the body's list. */
    ghost predicate Valid()
      reads this
    {
      && (parameterList.Some? ==> parameterList.value == body.parameters)
      && (dispositionParameterList.Some? ==> dispositionParameterList.value == body.dispositionParameters)
    }

    /** The top-level part of a message: its section is "1". */
    constructor Root(message: nat, body: Body)
      ensures this.message == message && this.body == body && parent == null
      ensures spec == "1" && spec == PartSpec(path)
      ensures Linked() && Valid()
      ensures parameterList.None? && dispositionParameterList.None?
    {
      this.body := body;
      this.parent := null;
      this.message := message;
      this.spec := "1";
      this.path := [];
      this.depth := 0;
      this.parameterList := None;
      this.dispositionParameterList := None;
    }

    /** The nPart-th child of parent: the children of the top-level part
        are numbered "n", deeper parts "parentSpec.n". */
    constructor Child(parent: MimePartCC?, nPart: nat, body: Body)
      requires parent != null ==> parent.Linked() && parent.spec == PartSpec(parent.path)
      ensures this.parent == parent && this.body == body
      ensures spec == if parent != null && parent.parent != null
                      then parent.spec + "." + NatToString(nPart)
                      else NatToString(nPart)
      ensures parent != null && parent.parent != null && parent.path != [] ==> spec == PartSpec(path)
      ensures parent != null && parent.parent == null && parent.path == [] ==> spec == PartSpec(path)
      ensures Linked() && Valid()
      ensures parameterList.None? && dispositionParameterList.None?
    {
      this.body := body;
      this.parent := parent;
      this.message := 0;
      this.path := if parent != null then parent.path + [nPart] else [nPart];
      this.depth := if parent != null then parent.depth + 1 else 0;
      if parent != null && parent.parent != null {
        this.spec := parent.spec + "." + NatToString(nPart);
      } else {
        this.spec := NatToString(nPart);
      }
      this.parameterList := None;
      this.dispositionParameterList := None;
      new;
      if parent != null {
        assert path[..|path| - 1] == parent.path;
      }
    }

    /** The top-level part above this one. */
    ghost function Top(): MimePartCC
      requires Linked()
      decreases depth
    {
      if parent == null then this else parent.Top()
    }

    /** MimePartCC::GetMessage: the top-level part's message. */
    function GetMessage(): (m: nat)
      requires Linked()
      ensures m == Top().message
      decreases depth
    {
      if parent != null then parent.GetMessage() else message
    }

    /** MimePartCC::GetParameters: builds the list on first use and returns
        the same list afterwards. */
    method GetParameters() returns (list: seq<Param>)
      requires Valid()
      modifies this`parameterList
      ensures Valid()
      ensures list == body.parameters && parameterList == Some(list)
      ensures old(parameterList).Some? ==> parameterList == old(parameterList)
    {
      if parameterList.None? {
        var built := InitParamList([], body.parameters);
        parameterList := Some(built);
      }
      list := parameterList.value;
    }

    /** MimePartCC::GetDispositionParameters, the same for the
        Content-Disposition parameters. */
    method GetDispositionParameters() returns (list: seq<Param>)
      requires Valid()
      modifies this`dispositionParameterList
      ensures Valid()
      ensures list == body.dispositionParameters && dispositionParameterList == Some(list)
      ensures old(dispositionParameterList).Some? ==> dispositionParameterList == old(dispositionParameterList)
    {
      if dispositionParameterList.None? {
        var built := InitParamList([], body.dispositionParameters);
        dispositionParameterList := Some(built);
      }
      list := dispositionParameterList.value;
    }

    method GetParam(name: string) returns (value: string)
      requires Valid()
      modifies this`parameterList
      ensures Valid() && parameterList == Some(body.parameters)
      ensures value == FindParam(body.parameters, name)
    {
      var list := GetParameters();
      value := FindParam(list, name);
    }

    method GetDispositionParam(name: string) returns (value: string)
      requires Valid()
      modifies this`dispositionParameterList
      ensures Valid() && dispositionParameterList == Some(body.dispositionParameters)
      ensures value == FindParam(body.dispositionParameters, name)
    {
      var list := GetDispositionParameters();
      value := FindParam(list, name);
    }

    method GetFilename() returns (filename: string)
      requires Valid()
      modifies this`parameterList, this`dispositionParameterList
      ensures Valid()
      ensures filename == Filename(body)
    {
      filename := GetDispositionParam("filename");
      if filename == [] {
        filename := GetParam("filename");
      }
      if filename == [] {
        filename := GetParam("name");
      }
    }

    method GetTextEncoding(charsetToEncoding: string -> Encoding) returns (e: Encoding)
      requires Valid()
      modifies this`parameterList
      ensures Valid()
      ensures e == TextEncoding(body, charsetToEncoding)
    {
      var charset := GetParam("charset");
      e := if charset == [] then System else charsetToEncoding(charset);
    }
  }

  // ---------------------------------------------------------------------
  // The read-only part tree handed to the message viewer
  // ---------------------------------------------------------------------

  /** One part of a parsed message as the viewer sees it: its body, its
      section, its content (None when it cannot be fetched) and its nested
      parts in sibling order. */
  datatype Node = Node(body: Body, spec: string, content: Option<string>, children: seq<Node>)
}
