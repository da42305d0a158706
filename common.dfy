/** Small helpers shared by the models: an Option type, the opaque display
    values (colours, character encodings), ASCII case mapping, splitting and
    joining a string on a separator character, and decimal formatting. */
module Common {

  datatype Option<T> = None | Some(value: T)
  {
    function GetOr(default: T): T
    {
      if Some? then value else default
    }
  }

  /** A display colour, uninterpreted; NullColour is the "invalid colour"
      value returned by the colour lookups on a bad index. */
  datatype Colour = NullColour | Rgb(id: nat)

  /** A character encoding of displayed text. System means "no explicit
      encoding, let the viewer use its default", Default is the distinct
      "default encoding" value, Named is any definite encoding. */
  datatype Encoding = System | Default | Named(code: nat)

  // ---------------------------------------------------------------------
  // Quoting levels
  // ---------------------------------------------------------------------

  /** The deepest quoting level that has a colour of its own. */
  const QuoteLevelMax: nat := 3

  /** The displayed quoting level for a counted level q (0 is unquoted):
      deeper levels either cycle through the quoted colours or all share
      the deepest one. */
  function ClampLevel(q: nat, cycleColours: bool): (r: nat)
    ensures r <= QuoteLevelMax
  {
    if q > QuoteLevelMax then
      if cycleColours then (q - 1) % QuoteLevelMax + 1 else QuoteLevelMax
    else q
  }

  /** Levels that have a colour are kept; quoted text stays quoted; deeper
      levels either share the deepest colour or cycle, keeping the level
      modulo the number of quoted colours. */
  lemma ClampLevelSpec(q: nat, cycleColours: bool)
    ensures q <= QuoteLevelMax ==> ClampLevel(q, cycleColours) == q
    ensures ClampLevel(q, cycleColours) == 0 <==> q == 0
    ensures q > QuoteLevelMax && !cycleColours ==> ClampLevel(q, cycleColours) == QuoteLevelMax
    ensures cycleColours ==> ClampLevel(q, cycleColours) % QuoteLevelMax == q % QuoteLevelMax
  {
  }

  /** Appending to a sequence built by appending. Called at the steps of
      the sequence proofs that need this one regrouping, which keeps each
      of those proofs small. */
  lemma AppendAssoc<T>(a: seq<T>, b: seq<T>, c: seq<T>)
    ensures (a + b) + c == a + (b + c)
  {
  }

  // ---------------------------------------------------------------------
  // ASCII case mapping (strings are compared and case-folded by letters
  // A-Z only; locale-dependent case folding is not modelled)
  // ---------------------------------------------------------------------

  function UpperChar(c: char): char
  {
    if 'a' <= c <= 'z' then (c as int - 32) as char else c
  }

  function LowerChar(c: char): char
  {
    if 'A' <= c <= 'Z' then (c as int + 32) as char else c
  }

  function Upper(s: string): (r: string)
    ensures |r| == |s|
    ensures forall i :: 0 <= i < |s| ==> r[i] == UpperChar(s[i])
  {
    seq(|s|, i requires 0 <= i < |s| => UpperChar(s[i]))
  }

  function Lower(s: string): (r: string)
    ensures |r| == |s|
    ensures forall i :: 0 <= i < |s| ==> r[i] == LowerChar(s[i])
  {
    seq(|s|, i requires 0 <= i < |s| => LowerChar(s[i]))
  }

  /** Case-insensitive string equality (CmpNoCase(...) == 0). */
  predicate EqualsNoCase(a: string, b: string)
  {
    Lower(a) == Lower(b)
  }

  // ---------------------------------------------------------------------
  // Searching, splitting and joining
  // ---------------------------------------------------------------------

  /** Index of the first occurrence of c in s. */
  function IndexOf(s: string, c: char): (r: Option<nat>)
    ensures r.Some? ==> r.value < |s| && s[r.value] == c && c !in s[..r.value]
    ensures r.None? ==> c !in s
  {
    if s == [] then None
    else if s[0] == c then Some(0)
    else match IndexOf(s[1..], c)
      case None => None
      case Some(i) =>
        assert s[..i + 1] == [s[0]] + s[1..][..i];
        Some(i + 1)
  }

  /** The text before the first c, or all of s when there is none
      (wxString::BeforeFirst). */
  function BeforeFirst(s: string, c: char): string
  {
    match IndexOf(s, c)
    case None => s
    case Some(i) => s[..i]
  }

  /** The text after the first c, or "" when there is none
      (wxString::AfterFirst). */
  function AfterFirst(s: string, c: char): string
  {
    match IndexOf(s, c)
    case None => []
    case Some(i) => s[i + 1..]
  }

  /** The text after the last c, or all of s when there is none
      (wxString::AfterLast). */
  function AfterLast(s: string, c: char): (r: string)
    ensures c !in r
    ensures |r| <= |s|
    decreases |s|
  {
    if s == [] then []
    else if s[|s| - 1] == c then []
    else AfterLast(s[..|s| - 1], c) + [s[|s| - 1]]
  }

  /** The text before the last c, or "" when there is none
      (wxString::BeforeLast). */
  function BeforeLast(s: string, c: char): string
    decreases |s|
  {
    if s == [] then []
    else if s[|s| - 1] == c then s[..|s| - 1]
    else BeforeLast(s[..|s| - 1], c)
  }

  /** A string holding c is what comes before its last c, the c, and what
      comes after. */
  lemma {:induction false} SplitAtLast(s: string, c: char)
    requires c in s
    ensures BeforeLast(s, c) + [c] + AfterLast(s, c) == s
    decreases |s|
  {
    var n := |s| - 1;
    if s[n] != c {
      assert s == s[..n] + [s[n]];
      assert c in s[..n];
      SplitAtLast(s[..n], c);
    }
  }

  /** The pieces of s between occurrences of sep; never empty. */
  function SplitAll(s: string, sep: char): (r: seq<string>)
    ensures |r| >= 1
    decreases |s|
  {
    match IndexOf(s, sep)
    case None => [s]
    case Some(i) => [s[..i]] + SplitAll(s[i + 1..], sep)
  }

  /** Splits a sep-separated list: the empty string is the empty list, and a
      trailing separator yields a trailing empty element. */
  function Split(s: string, sep: char): seq<string>
  {
    if s == [] then [] else SplitAll(s, sep)
  }

  /** Joins the pieces with sep between them, none before the first or
      after the last. */
  function Join(ts: seq<string>, sep: char): string
    decreases |ts|
  {
    if ts == [] then []
    else if |ts| == 1 then ts[0]
    else ts[0] + [sep] + Join(ts[1..], sep)
  }

  lemma IndexOfAfterPrefix(a: string, b: string, sep: char)
    requires sep !in a
    ensures IndexOf(a + [sep] + b, sep) == Some(|a|)
    decreases |a|
  {
    if a != [] {
      assert (a + [sep] + b)[1..] == a[1..] + [sep] + b;
      IndexOfAfterPrefix(a[1..], b, sep);
    }
  }

  lemma {:induction false} SeparatorNotInJoin(ts: seq<string>, sep: char, c: char)
    requires c != sep && forall t <- ts :: c !in t
    ensures c !in Join(ts, sep)
    decreases |ts|
  {
    if |ts| > 1 {
      SeparatorNotInJoin(ts[1..], sep, c);
    }
  }

  lemma SplitAllAfterPrefix(a: string, b: string, sep: char)
    requires sep !in a
    ensures SplitAll(a + [sep] + b, sep) == [a] + SplitAll(b, sep)
  {
    var s := a + [sep] + b;
    IndexOfAfterPrefix(a, b, sep);
    assert s[..|a|] == a;
    assert s[|a| + 1..] == b;
  }

  /** Splitting undoes joining whenever no piece contains the separator. */
  lemma {:induction false} SplitAllJoin(ts: seq<string>, sep: char)
    requires ts != []
    requires forall t <- ts :: sep !in t
    ensures SplitAll(Join(ts, sep), sep) == ts
    decreases |ts|
  {
    if |ts| == 1 {
      assert ts[0] in ts;
      assert SplitAll(ts[0], sep) == [ts[0]];
    } else {
      assert ts[0] in ts;
      SplitAllAfterPrefix(ts[0], Join(ts[1..], sep), sep);
      SplitAllJoin(ts[1..], sep);
    }
  }

  /** A join of non-empty pieces is empty exactly when there are no pieces. */
  lemma {:induction false} JoinEmptyIff(ts: seq<string>, sep: char)
    requires forall t <- ts :: t != []
    ensures Join(ts, sep) == [] <==> ts == []
  {
    if |ts| == 1 {
      assert ts[0] in ts;
    } else if |ts| > 1 {
      assert |Join(ts, sep)| >= |ts[0]| + 1;
    }
  }

  /** Joining one more piece appends the separator and the piece, except
      after no pieces at all. */
  lemma {:induction false} JoinSnoc(ts: seq<string>, t: string, sep: char)
    ensures Join(ts + [t], sep) == if ts == [] then t else Join(ts, sep) + [sep] + t
    decreases |ts|
  {
    if |ts| > 1 {
      assert (ts + [t])[1..] == ts[1..] + [t];
      JoinSnoc(ts[1..], t, sep);
    } else if |ts| == 1 {
      assert (ts + [t])[1..] == [t];
    }
  }

  /** Split(Join(ts)) == ts for lists of non-empty pieces free of sep. */
  lemma SplitJoin(ts: seq<string>, sep: char)
    requires forall t <- ts :: t != [] && sep !in t
    ensures Split(Join(ts, sep), sep) == ts
  {
    JoinEmptyIff(ts, sep);
    if ts != [] {
      SplitAllJoin(ts, sep);
    }
  }

  // ---------------------------------------------------------------------
  // Decimal formatting ("%u", strutil_ultoa)
  // ---------------------------------------------------------------------

  predicate IsDigit(c: char)
  {
    '0' <= c <= '9'
  }

  function DigitChar(d: nat): (c: char)
    requires d < 10
    ensures IsDigit(c)
  {
    ('0' as int + d) as char
  }

  function NatToString(n: nat): (r: string)
    ensures |r| >= 1
    ensures forall c <- r :: IsDigit(c)
    decreases n
  {
    if n < 10 then [DigitChar(n)] else NatToString(n / 10) + [DigitChar(n % 10)]
  }

  /** Reads back a string of decimal digits. */
  function ParseDigits(s: string): nat
    requires forall c <- s :: IsDigit(c)
    decreases |s|
  {
    if s == [] then 0
    else
      var d := s[|s| - 1];
      assert d in s && IsDigit(d);
      10 * ParseDigits(s[..|s| - 1]) + (d as int - '0' as int)
  }

  /** The decimal form of n reads back as n, so distinct numbers have
      distinct decimal forms. */
  lemma {:induction false} ParseNatToString(n: nat)
    ensures ParseDigits(NatToString(n)) == n
    decreases n
  {
    if n >= 10 {
      var s := NatToString(n);
      assert s[..|s| - 1] == NatToString(n / 10);
      ParseNatToString(n / 10);
    }
  }

  lemma NatToStringInjective(m: nat, n: nat)
    ensures NatToString(m) == NatToString(n) ==> m == n
  {
    ParseNatToString(m);
    ParseNatToString(n);
  }

  /** The decimal form of an integer, with a leading '-' when negative. */
  function IntToString(n: int): (r: string)
  {
    if n < 0 then "-" + NatToString(-n) else NatToString(n)
  }

  /** A non-empty run of decimal digits. */
  predicate AllDigits(s: string)
  {
    s != [] && forall c <- s :: IsDigit(c)
  }

  /** wxString::ToLong in base 10: an optional sign followed by one or more
      decimal digits and nothing else; None when the text is not a number. */
  function ParseLong(s: string): (r: Option<int>)
  {
    if s != [] && (s[0] == '-' || s[0] == '+') then
      if AllDigits(s[1..]) then
        var n: int := ParseDigits(s[1..]);
        Some(if s[0] == '-' then 0 - n else n)
      else None
    else if AllDigits(s) then Some(ParseDigits(s))
    else None
  }

  /** A non-empty run of digits parses as its value, with either sign. */
  lemma ParseLongDigits(d: string)
    requires AllDigits(d)
    ensures ParseLong(d) == Some(ParseDigits(d))
    ensures ParseLong("-" + d) == Some(0 - ParseDigits(d))
  {
    assert d[0] in d;
    assert ("-" + d)[1..] == d;
  }

  /** The decimal form of a natural number is a run of digits. */
  lemma NatToStringDigits(n: nat)
    ensures AllDigits(NatToString(n))
  {
  }

  /** An integer written in decimal reads back as the same integer. */
  lemma ParseIntToString(n: int)
    ensures ParseLong(IntToString(n)) == Some(n)
  {
    var k: nat := if n < 0 then -n else n;
    var d := NatToString(k);
    NatToStringDigits(k);
    ParseLongDigits(d);
    ParseNatToString(k);
    assert IntToString(n) == if n < 0 then "-" + d else d;
  }
}
