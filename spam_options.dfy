/** The spam heuristics dialog: which tests are active, their textual form
    ("token:token:..."), and the slots of the options page built for them. */
module SpamOptions {
  import opened Common

  /** The number of options (ms_count); USE_RBL is unset, so there is no RBL
      option. */
  const Count: nat := 10

  /** One heuristic test: DefaultValue(), Token(), ProfileHackName() and
      Title(). */
  datatype SpamOption = SpamOption(defaultValue: bool, token: string, profileHackName: string, title: string)

  /** The options in ms_members order. Token() values are defined by the
      filter language, which is not part of this model, so they are given. */
  function StandardOptions(tokens: seq<string>): (opts: seq<SpamOption>)
    requires |tokens| == Count
    ensures |opts| == Count
    ensures forall i :: 0 <= i < Count ==> opts[i].token == tokens[i]
  {
    [ SpamOption(true, tokens[0], "SpamAssassin", "Been tagged as spam by Spam&Assassin"),
      SpamOption(true, tokens[1], "Spam8BitSubject", "Too many &8 bit characters in subject"),
      SpamOption(true, tokens[2], "SpamCapsSubject", "Only &capitals in subject"),
      SpamOption(true, tokens[3], "JunkEndSubject", "&Junk at end of subject"),
      SpamOption(true, tokens[4], "SpamKoreanCharset", "&Korean charset"),
      SpamOption(false, tokens[5], "SpamXAuthWarning", "X-Authentication-&Warning header"),
      SpamOption(false, tokens[6], "SpamReceived", "Suspicious \"&Received\" headers"),
      SpamOption(false, tokens[7], "SpamHtml", "Only &HTML content"),
      SpamOption(false, tokens[8], "SpamMime", "Unusual &MIME structure"),
      SpamOption(false, tokens[9], "SpameWhiteList", "No match in &whitelist") ]
  }

  /** The message shown above the options. */
  const Intro: string :=
    "Mahogany may use several heuristic tests to detect spam.\n"
    + "Please choose the ones you'd like to be used by checking\n"
    + "the corresponding entries.\n"
    + "\n"
    + "So the message is considered to be spam if it has..."

  /** What the model assumes of the tokens: one per option, each non-empty,
      free of the list separator ':' and all different. */
  predicate ValidOptions(opts: seq<SpamOption>)
  {
    && |opts| == Count
    && (forall o <- opts :: o.token != [] && ':' !in o.token)
    && (forall i, j :: 0 <= i < j < |opts| ==> opts[i].token != opts[j].token)
  }

  /** strutil_restore_array on a list of tokens: the pieces between the
      separators, none for the empty string. */
  function RestoreArray(s: string): seq<string>
  {
    Split(s, ':')
  }

  /** n flags, all false. */
  function AllOff(n: nat): (r: seq<bool>)
    ensures |r| == n && forall i :: 0 <= i < n ==> !r[i]
  {
    if n == 0 then [] else AllOff(n - 1) + [false]
  }

  /** The default flags. */
  function DefaultsOf(opts: seq<SpamOption>): (r: seq<bool>)
    ensures |r| == |opts| && forall i :: 0 <= i < |opts| ==> r[i] == opts[i].defaultValue
  {
    seq(|opts|, i requires 0 <= i < |opts| => opts[i].defaultValue)
  }

  /** SpamAssassin, 8 bit subject, capitals, junk subject and Korean charset
      are on by default, the others off. */
  lemma StandardDefaults(tokens: seq<string>)
    requires |tokens| == Count
    ensures DefaultsOf(StandardOptions(tokens)) == [true, true, true, true, true, false, false, false, false, false]
  {
  }

  /** The index of the first option whose token is t. */
  function FirstWithToken(opts: seq<SpamOption>, t: string): (r: Option<nat>)
    ensures r.Some? ==> r.value < |opts| && opts[r.value].token == t
    ensures r.Some? ==> forall k :: 0 <= k < r.value ==> opts[k].token != t
    ensures r.None? ==> forall o <- opts :: o.token != t
  {
    if opts == [] then None
    else if opts[0].token == t then Some(0)
    else match FirstWithToken(opts[1..], t)
      case None => None
      case Some(i) => Some(i + 1)
  }

  /** The flags after FromString has processed tests from all-false: each
      test switches on the first option with that token; unknown tests are
      ignored. */
  function Marked(opts: seq<SpamOption>, tests: seq<string>): (r: seq<bool>)
    ensures |r| == |opts|
    decreases |tests|
  {
    if tests == [] then AllOff(|opts|)
    else
      var prev := Marked(opts, tests[..|tests| - 1]);
      match FirstWithToken(opts, tests[|tests| - 1])
      case None => prev
      case Some(i) => prev[i := true]
  }

  /** What FromString sets the flags to. */
  function FromStringSpec(opts: seq<SpamOption>, source: string): (r: seq<bool>)
    ensures |r| == |opts|
  {
    if source == [] then DefaultsOf(opts) else Marked(opts, RestoreArray(source))
  }

  /** The tokens of the active options, in option order. */
  function ActiveTokens(opts: seq<SpamOption>, active: seq<bool>): (r: seq<string>)
    requires |active| == |opts|
    ensures |r| <= |opts|
    decreases |opts|
  {
    if opts == [] then []
    else
      ActiveTokens(opts[..|opts| - 1], active[..|active| - 1])
        + (if active[|active| - 1] then [opts[|opts| - 1].token] else [])
  }

  /** What ToString returns. */
  function ToStringSpec(opts: seq<SpamOption>, active: seq<bool>): string
    requires |active| == |opts|
  {
    Join(ActiveTokens(opts, active), ':')
  }

  /** A token is listed exactly when one of the options carrying it is
      active. */
  lemma {:induction false} ActiveTokensIn(opts: seq<SpamOption>, active: seq<bool>, t: string)
    requires |active| == |opts|
    ensures t in ActiveTokens(opts, active) <==>
      exists i :: 0 <= i < |opts| && opts[i].token == t && active[i]
    decreases |opts|
  {
    if opts != [] {
      var n := |opts| - 1;
      ActiveTokensIn(opts[..n], active[..n], t);
      if exists i :: 0 <= i < |opts| && opts[i].token == t && active[i] {
        var i :| 0 <= i < |opts| && opts[i].token == t && active[i];
        if i < n {
          assert opts[..n][i].token == t && active[..n][i];
        }
      }
    }
  }

  /** Every listed token is a non-empty token free of ':' when the options'
      tokens are. */
  lemma {:induction false} ActiveTokensWellFormed(opts: seq<SpamOption>, active: seq<bool>)
    requires |active| == |opts|
    requires forall o <- opts :: o.token != [] && ':' !in o.token
    ensures forall t <- ActiveTokens(opts, active) :: t != [] && ':' !in t
    decreases |opts|
  {
    if opts != [] {
      var n := |opts| - 1;
      assert forall o <- opts[..n] :: o in opts;
      ActiveTokensWellFormed(opts[..n], active[..n]);
      assert opts[n] in opts;
    }
  }

  /** No active option, no tokens. */
  lemma {:induction false} ActiveTokensEmptyIff(opts: seq<SpamOption>, active: seq<bool>)
    requires |active| == |opts|
    ensures ActiveTokens(opts, active) == [] <==> forall i :: 0 <= i < |active| ==> !active[i]
    decreases |opts|
  {
    if opts != [] {
      var n := |opts| - 1;
      var prefix := active[..n];
      ActiveTokensEmptyIff(opts[..n], prefix);
      assert forall i :: 0 <= i < n ==> prefix[i] == active[i];
    }
  }

  /** With distinct tokens, option i is on after FromString of tests exactly
      when its token is among the tests: unknown tests are ignored and
      repeated ones have no further effect. */
  lemma {:induction false} MarkedIff(opts: seq<SpamOption>, tests: seq<string>, i: nat)
    requires i < |opts|
    requires forall k, j :: 0 <= k < j < |opts| ==> opts[k].token != opts[j].token
    ensures Marked(opts, tests)[i] <==> opts[i].token in tests
    decreases |tests|
  {
    if tests != [] {
      var init := tests[..|tests| - 1];
      var last := tests[|tests| - 1];
      MarkedIff(opts, init, i);
      assert tests == init + [last];
      match FirstWithToken(opts, last)
      case None =>
      case Some(j) =>
        if opts[i].token == last {
          assert opts[j].token == opts[i].token;
        }
    }
  }

  /** ToString is empty exactly when no option is active. */
  lemma ToStringEmptyIff(opts: seq<SpamOption>, active: seq<bool>)
    requires ValidOptions(opts) && |active| == Count
    ensures ToStringSpec(opts, active) == [] <==> forall i :: 0 <= i < Count ==> !active[i]
  {
    ActiveTokensWellFormed(opts, active);
    JoinEmptyIff(ActiveTokens(opts, active), ':');
    ActiveTokensEmptyIff(opts, active);
  }

  /** FromString(ToString()) restores every flag as long as one option is
      active. */
  lemma RoundTrip(opts: seq<SpamOption>, active: seq<bool>)
    requires ValidOptions(opts) && |active| == Count
    requires exists i :: 0 <= i < Count && active[i]
    ensures FromStringSpec(opts, ToStringSpec(opts, active)) == active
  {
    var listed := ActiveTokens(opts, active);
    ActiveTokensWellFormed(opts, active);
    ToStringEmptyIff(opts, active);
    SplitJoin(listed, ':');
    assert RestoreArray(ToStringSpec(opts, active)) == listed;
    var r := FromStringSpec(opts, ToStringSpec(opts, active));
    forall i | 0 <= i < Count
      ensures r[i] == active[i]
    {
      MarkedIff(opts, listed, i);
      ActiveTokensIn(opts, active, opts[i].token);
      if opts[i].token in listed {
        var k :| 0 <= k < |opts| && opts[k].token == opts[i].token && active[k];
        assert k == i;
      }
    }
  }

  /** The all-false state does not survive the round trip: it comes back as
      the defaults. */
  lemma AllOffBecomesDefaults(opts: seq<SpamOption>)
    requires ValidOptions(opts)
    ensures FromStringSpec(opts, ToStringSpec(opts, AllOff(Count))) == DefaultsOf(opts)
  {
    ToStringEmptyIff(opts, AllOff(Count));
  }

  /** A slot of the options page's configuration values. */
  datatype ConfigValue = ConfigValueNone | ConfigValueDefault(name: string, defaultValue: bool)

  datatype FieldFlags = FieldMessage | FieldBool

  /** A slot of the options page's field descriptions. */
  datatype FieldInfo = FieldInfo(text: string, flags: FieldFlags, enable: int)

  /** ConfigEntryCount. */
  function ConfigEntryCount(): (n: nat)
    ensures n == Count + 1
  {
    Count + 1
  }

  /** The configuration slots: nothing for the intro, then option i's name
      and default in slot i + 1. */
  function ConfigSlots(opts: seq<SpamOption>): (r: seq<ConfigValue>)
    ensures |r| == |opts| + 1 && r[0] == ConfigValueNone
    ensures forall i :: 1 <= i <= |opts| ==>
      r[i] == ConfigValueDefault(opts[i - 1].profileHackName, opts[i - 1].defaultValue)
  {
    [ConfigValueNone]
      + seq(|opts|, i requires 0 <= i < |opts| => ConfigValueDefault(opts[i].profileHackName, opts[i].defaultValue))
  }

  /** The field slots: the intro message, then option i's title as a check
      box in slot i + 1. */
  function FieldSlots(opts: seq<SpamOption>): (r: seq<FieldInfo>)
    ensures |r| == |opts| + 1 && r[0] == FieldInfo(Intro, FieldMessage, -1)
    ensures forall i :: 1 <= i <= |opts| ==> r[i] == FieldInfo(opts[i - 1].title, FieldBool, -1)
  {
    [FieldInfo(Intro, FieldMessage, -1)]
      + seq(|opts|, i requires 0 <= i < |opts| => FieldInfo(opts[i].title, FieldBool, -1))
  }

  /** SpamOptionManagerBody::Iterator: walks the options and stops at the
      end. */
  class Iterator {
    var index: nat

    constructor()
      ensures index == 0
    {
      index := 0;
    }

    /** IsEnd. */
    predicate IsEnd()
      reads this
    {
      index == Count
    }

    /** operator++: never moves past the end. */
    method Next()
      requires index <= Count
      modifies this
      ensures index <= Count
      ensures index == if old(index) == Count then old(index) else old(index) + 1
    {
      if !IsEnd() {
        index := index + 1;
      }
    }
  }

  /** SpamOptionManagerBody: the options with their m_active flags, and the
      options page's slots. */
  class SpamOptionManagerBody {
    const options: seq<SpamOption>
    /** m_active of each option. */
    var active: seq<bool>
    var configValues: array<ConfigValue>
    var fieldInfo: array<FieldInfo>

    constructor(tokens: seq<string>)
      requires |tokens| == Count && ValidOptions(StandardOptions(tokens))
      ensures options == StandardOptions(tokens) && |active| == Count
      ensures configValues[..] == ConfigSlots(options)
      ensures fieldInfo[..] == FieldSlots(options)
    {
      options := StandardOptions(tokens);
      active := AllOff(Count);
      new;
      BuildConfigValues();
      BuildFieldInfo();
    }

    /** SetDefaults: every option takes its default. */
    method SetDefaults()
      requires |active| == Count && |options| == Count
      modifies this
      ensures active == DefaultsOf(options)
      ensures configValues == old(configValues) && fieldInfo == old(fieldInfo)
    {
      var option := new Iterator();
      while !option.IsEnd()
        invariant option.index <= Count && |active| == Count
        invariant forall k :: 0 <= k < option.index ==> active[k] == options[k].defaultValue
        invariant configValues == old(configValues) && fieldInfo == old(fieldInfo)
        decreases Count - option.index
      {
        active := active[option.index := options[option.index].defaultValue];
        option.Next();
      }
    }

    /** SetFalse: every option off. */
    method SetFalse()
      requires |active| == Count
      modifies this
      ensures active == AllOff(Count)
      ensures configValues == old(configValues) && fieldInfo == old(fieldInfo)
    {
      var option := new Iterator();
      while !option.IsEnd()
        invariant option.index <= Count && |active| == Count
        invariant forall k :: 0 <= k < option.index ==> !active[k]
        invariant configValues == old(configValues) && fieldInfo == old(fieldInfo)
        decreases Count - option.index
      {
        active := active[option.index := false];
        option.Next();
      }
    }

    /** The inner search of FromString: the first option whose token is
        actual. */
    method MatchOption(actual: string) returns (r: Option<nat>)
      requires |options| == Count
      ensures r == FirstWithToken(options, actual)
    {
      var option := new Iterator();
      r := None;
      while !option.IsEnd() && r.None?
        invariant option.index <= Count
        invariant r.None? ==> forall k :: 0 <= k < option.index ==> options[k].token != actual
        invariant r.Some? ==> r == FirstWithToken(options, actual)
        decreases Count - option.index, if r.None? then 1 else 0
      {
        if actual == options[option.index].token {
          FirstFound(options, actual, option.index);
          r := Some(option.index);
        } else {
          option.Next();
        }
      }
    }

    /** FromString: the defaults for "", otherwise exactly the listed
        options. */
    method FromString(source: string)
      requires |active| == Count && |options| == Count
      modifies this
      ensures active == FromStringSpec(options, source)
      ensures configValues == old(configValues) && fieldInfo == old(fieldInfo)
    {
      if source == [] {
        SetDefaults();
        return;
      }
      SetFalse();
      var tests := RestoreArray(source);
      var token := 0;
      while token < |tests|
        invariant token <= |tests|
        invariant active == Marked(options, tests[..token])
        invariant configValues == old(configValues) && fieldInfo == old(fieldInfo)
      {
        assert tests[..token + 1][..token] == tests[..token];
        var actual := tests[token];
        var found := MatchOption(actual);
        if found.Some? {
          active := active[found.value := true];
        }
        token := token + 1;
      }
      assert tests[..token] == tests;
    }

    /** ToString: the active options' tokens joined by ':'. */
    method ToString() returns (result: string)
      requires |active| == Count && ValidOptions(options)
      ensures result == ToStringSpec(options, active)
    {
      result := [];
      var option := new Iterator();
      while !option.IsEnd()
        invariant option.index <= Count
        invariant result == ToStringSpec(options[..option.index], active[..option.index])
        decreases Count - option.index
      {
        var n := option.index;
        ToStringStep(options, active, n);
        if active[n] {
          if result != [] {
            result := result + [':'];
          }
          result := result + options[n].token;
        }
        option.Next();
      }
      assert options[..Count] == options && active[..Count] == active;
    }

    /** BuildConfigValues: slot i + 1 for option i. */
    method BuildConfigValues()
      requires |options| == Count
      modifies this
      ensures configValues[..] == ConfigSlots(options) && fresh(configValues)
      ensures active == old(active) && fieldInfo == old(fieldInfo)
    {
      var values := new ConfigValue[ConfigEntryCount()](_ => ConfigValueNone);
      var option := new Iterator();
      while !option.IsEnd()
        invariant option.index <= Count
        invariant values[0] == ConfigValueNone
        invariant active == old(active) && fieldInfo == old(fieldInfo)
        invariant forall k :: 1 <= k <= option.index ==>
          values[k] == ConfigValueDefault(options[k - 1].profileHackName, options[k - 1].defaultValue)
        decreases Count - option.index
      {
        var n := option.index;
        values[n + 1] := ConfigValueDefault(options[n].profileHackName, options[n].defaultValue);
        option.Next();
      }
      assert values[..] == ConfigSlots(options);
      configValues := values;
    }

    /** BuildFieldInfo: the intro in slot 0, option i's title in slot
        i + 1. */
    method BuildFieldInfo()
      requires |options| == Count
      modifies this
      ensures fieldInfo[..] == FieldSlots(options) && fresh(fieldInfo)
      ensures active == old(active) && configValues == old(configValues)
    {
      var info := new FieldInfo[ConfigEntryCount()](_ => FieldInfo([], FieldBool, 0));
      info[0] := FieldInfo(Intro, FieldMessage, -1);
      var option := new Iterator();
      while !option.IsEnd()
        invariant option.index <= Count
        invariant info[0] == FieldInfo(Intro, FieldMessage, -1)
        invariant active == old(active) && configValues == old(configValues)
        invariant forall k :: 1 <= k <= option.index ==> info[k] == FieldInfo(options[k - 1].title, FieldBool, -1)
        decreases Count - option.index
      {
        var n := option.index;
        info[n + 1] := FieldInfo(options[n].title, FieldBool, -1);
        option.Next();
      }
      assert info[..] == FieldSlots(options);
      fieldInfo := info;
    }
  }

  /** The first option whose token matches, when no earlier one does. */
  lemma FirstFound(opts: seq<SpamOption>, t: string, n: nat)
    requires n < |opts| && opts[n].token == t
    requires forall k :: 0 <= k < n ==> opts[k].token != t
    ensures FirstWithToken(opts, t) == Some(n)
  {
    var r := FirstWithToken(opts, t);
    assert opts[n] in opts;
  }

  /** One more option in ToString's loop. */
  lemma ToStringStep(opts: seq<SpamOption>, active: seq<bool>, n: nat)
    requires |active| == |opts| && n < |opts|
    requires forall o <- opts :: o.token != []
    ensures ToStringSpec(opts[..n + 1], active[..n + 1]) ==
      var prev := ToStringSpec(opts[..n], active[..n]);
      if !active[n] then prev
      else if prev == [] then opts[n].token
      else prev + [':'] + opts[n].token
  {
    var os := opts[..n + 1];
    var flags := active[..n + 1];
    assert os[..n] == opts[..n] && flags[..n] == active[..n];
    var listed := ActiveTokens(opts[..n], active[..n]);
    assert ActiveTokens(os, flags) == listed + (if active[n] then [opts[n].token] else []);
    assert forall o <- opts[..n] :: o in opts;
    ActiveTokensNonEmpty(opts[..n], active[..n]);
    JoinEmptyIff(listed, ':');
    if active[n] {
      JoinSnoc(listed, opts[n].token, ':');
    } else {
      assert listed + [] == listed;
    }
  }

  lemma {:induction false} ActiveTokensNonEmpty(opts: seq<SpamOption>, active: seq<bool>)
    requires |active| == |opts|
    requires forall o <- opts :: o.token != []
    ensures forall t <- ActiveTokens(opts, active) :: t != []
    decreases |opts|
  {
    if opts != [] {
      var n := |opts| - 1;
      assert forall o <- opts[..n] :: o in opts;
      ActiveTokensNonEmpty(opts[..n], active[..n]);
      assert opts[n] in opts;
    }
  }
}
