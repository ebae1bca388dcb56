/**
 * The message-log floater's filter: LLMessageLogFilter turns a filter
 * string into positive and negative (`!`-prefixed) message names, the
 * floater keeps an entry when none of its names is excluded and, if any
 * positive names are given, one of them is named; the raw log is bounded
 * by dropping its oldest entries.
 */
module MessageLog {
  import opened LLSD

  /** The filter the floater starts with: every noisy per-frame message excluded. */
  const DEFAULT_FILTER: string := "!StartPingCheck !CompletePingCheck !PacketAck !SimulatorViewerTimeMessage !SimStats !AgentUpdate !AgentAnimation !AvatarAnimation !ViewerEffect !CoarseLocationUpdate !LayerData !CameraConstraint !ObjectUpdateCached !RequestMultipleObjects !ObjectUpdate !ObjectUpdateCompressed !ImprovedTerseObjectUpdate !KillObject !ImagePacket !SendXferPacket !ConfirmXferPacket !TransferPacket !SoundTrigger !AttachedSound !PreloadSound"

  /** The raw log is trimmed to this many entries before a new one is appended. */
  const MAX_LOG_ENTRIES: nat := 4096

  // ---- Character classes and the string utilities the filter uses ----

  /** isspace in the "C" locale. */
  predicate IsSpace(c: char)
  {
    c == ' ' || c == '\t' || c == '\n' || c == '\U{0B}' || c == '\U{0C}' || c == '\r'
  }

  function LowerChar(c: char): char
  {
    if 'A' <= c <= 'Z' then (c as int + 32) as char else c
  }

  /** LLStringUtil::toLower on ASCII. */
  function ToLower(s: string): (r: string)
    ensures |r| == |s| && forall i | 0 <= i < |s| :: r[i] == LowerChar(s[i])
  {
    seq(|s|, i requires 0 <= i < |s| => LowerChar(s[i]))
  }

  function TrimHead(s: string): (r: string)
    ensures |r| <= |s| && r == s[|s| - |r|..]
    ensures r == [] || !IsSpace(r[0])
    ensures forall i | 0 <= i < |s| - |r| :: IsSpace(s[i])
  {
    if s != [] && IsSpace(s[0]) then
      var r := TrimHead(s[1..]);
      assert s[1..][|s| - 1 - |r|..] == s[|s| - |r|..];
      assert forall i | 1 <= i < |s| - |r| :: s[i] == s[1..][i - 1];
      r
    else s
  }

  function TrimTail(s: string): (r: string)
    ensures |r| <= |s| && r == s[..|r|]
    ensures r == [] || !IsSpace(r[|r| - 1])
    ensures forall i | |r| <= i < |s| :: IsSpace(s[i])
  {
    if s != [] && IsSpace(s[|s| - 1]) then
      var r := TrimTail(s[..|s| - 1]);
      assert s[..|s| - 1][..|r|] == s[..|r|];
      r
    else s
  }

  /** LLStringUtil::trim: leading, then trailing white space removed. */
  function Trim(s: string): string
  {
    TrimTail(TrimHead(s))
  }

  // ---- Tokenising: boost::char_separator on " ", empty tokens dropped ----

  /** The length of the run of non-space characters at the front of `s`. */
  function Span(s: string): (n: nat)
    ensures n <= |s| && ' ' !in s[..n] && (n < |s| ==> s[n] == ' ')
  {
    if s == [] || s[0] == ' ' then 0 else 1 + Span(s[1..])
  }

  /** The maximal runs of non-space characters of `s`, in order. */
  function Tokens(s: string): (r: seq<string>)
    ensures forall t | t in r :: t != [] && ' ' !in t
    decreases |s|
  {
    if s == [] then []
    else if s[0] == ' ' then Tokens(s[1..])
    else
      var n := Span(s);
      [s[..n]] + Tokens(s[n..])
  }

  /** The normalised form of one token. */
  function Canonical(token: string): string
  {
    ToLower(Trim(token))
  }

  /** The positive and the negative name lists of a filter. */
  datatype Names = Names(positive: seq<string>, negative: seq<string>)

  /**
   * The names the given tokens contribute, in order: each is trimmed and,
   * when something is left, lower-cased (Canonical); a leading `!` sends
   * it, without that `!`, to the negative list, otherwise it goes to the
   * positive list.
   */
  function Classify(tokens: seq<string>): Names
    decreases |tokens|
  {
    if tokens == [] then Names([], [])
    else
      var prev := Classify(tokens[..|tokens| - 1]);
      var c := Canonical(tokens[|tokens| - 1]);
      if c == [] then prev
      else if c[0] == '!' then prev.(negative := prev.negative + [c[1..]])
      else prev.(positive := prev.positive + [c])
  }

  /** LLMessageLogFilter::set as a function of the filter string. */
  function ParseFilter(filter: string): Names
  {
    Classify(Tokens(filter))
  }

  predicate NegativeToken(token: string, name: string)
  {
    var c := Canonical(token);
    c != [] && c[0] == '!' && name == c[1..]
  }

  predicate PositiveToken(token: string, name: string)
  {
    var c := Canonical(token);
    c != [] && c[0] != '!' && name == c
  }

  /** A name is in the negative list exactly when some token contributes it there. */
  lemma {:induction false} ClassifyNegative(tokens: seq<string>, name: string)
    ensures name in Classify(tokens).negative <==> exists t | t in tokens :: NegativeToken(t, name)
    decreases |tokens|
  {
    if tokens != [] {
      var init := tokens[..|tokens| - 1];
      var last := tokens[|tokens| - 1];
      ClassifyNegative(init, name);
      ClassifyStep(tokens, name);
      InitAndLast(tokens);
    }
  }

  /** A name is in the positive list exactly when some token contributes it there. */
  lemma {:induction false} ClassifyPositive(tokens: seq<string>, name: string)
    ensures name in Classify(tokens).positive <==> exists t | t in tokens :: PositiveToken(t, name)
    decreases |tokens|
  {
    if tokens != [] {
      var init := tokens[..|tokens| - 1];
      var last := tokens[|tokens| - 1];
      ClassifyPositive(init, name);
      ClassifyStep(tokens, name);
      InitAndLast(tokens);
    }
  }

  /** The last token adds its name to one list or to none. */
  lemma ClassifyStep(tokens: seq<string>, name: string)
    requires tokens != []
    ensures var init, last := tokens[..|tokens| - 1], tokens[|tokens| - 1];
      && (name in Classify(tokens).negative <==> name in Classify(init).negative || NegativeToken(last, name))
      && (name in Classify(tokens).positive <==> name in Classify(init).positive || PositiveToken(last, name))
  {
    var init, last := tokens[..|tokens| - 1], tokens[|tokens| - 1];
    var prev, c := Classify(init), Canonical(last);
    if c == [] {
      assert Classify(tokens) == prev;
    } else if c[0] == '!' {
      assert Classify(tokens) == prev.(negative := prev.negative + [c[1..]]);
    } else {
      assert Classify(tokens) == prev.(positive := prev.positive + [c]);
    }
  }

  lemma InitAndLast(tokens: seq<string>)
    requires tokens != []
    ensures forall t :: t in tokens <==> t in tokens[..|tokens| - 1] || t == tokens[|tokens| - 1]
  {
    assert tokens == tokens[..|tokens| - 1] + [tokens[|tokens| - 1]];
  }

  /** Every name either list holds is lower case. */
  lemma {:induction false} ClassifyLowerCase(tokens: seq<string>)
    ensures forall x | x in Classify(tokens).positive :: ToLower(x) == x
    ensures forall x | x in Classify(tokens).negative :: ToLower(x) == x
    decreases |tokens|
  {
    if tokens != [] {
      ClassifyLowerCase(tokens[..|tokens| - 1]);
      var c := Canonical(tokens[|tokens| - 1]);
      ToLowerIdempotent(Trim(tokens[|tokens| - 1]));
      if c != [] {
        LowerSuffix(c);
      }
    }
  }

  lemma LowerSuffix(s: string)
    requires s != [] && ToLower(s) == s
    ensures ToLower(s[1..]) == s[1..]
  {
    assert forall i | 0 <= i < |s| - 1 :: s[1..][i] == s[i + 1];
  }

  lemma ToLowerIdempotent(s: string)
    ensures ToLower(ToLower(s)) == ToLower(s)
  {
  }

  /** Joining two filters with a space tokenises to the tokens of one, then the other. */
  lemma {:induction false} TokensAppend(a: string, b: string)
    ensures Tokens(a + " " + b) == Tokens(a) + Tokens(b)
    decreases |a|
  {
    var s := a + " " + b;
    if a == [] {
      assert s[1..] == b;
    } else if a[0] == ' ' {
      assert s[1..] == a[1..] + " " + b;
      TokensAppend(a[1..], b);
    } else {
      var n := Span(a);
      SpanAppend(a, b);
      assert s[..n] == a[..n];
      assert s[n..] == a[n..] + " " + b;
      TokensAppend(a[n..], b);
    }
  }

  lemma {:induction false} SpanAppend(a: string, b: string)
    ensures Span(a + " " + b) == Span(a)
    decreases |a|
  {
    if a != [] && a[0] != ' ' {
      assert (a + " " + b)[1..] == a[1..] + " " + b;
      SpanAppend(a[1..], b);
    }
  }

  /** A bare `!` added to a filter adds the empty name to its negative list and nothing else. */
  lemma BareBang(filter: string)
    ensures ParseFilter(filter + " !") == ParseFilter(filter).(negative := ParseFilter(filter).negative + [""])
  {
    TokensAppend(filter, "!");
    assert filter + " !" == filter + " " + "!";
    TokensOfOne("!");
    CanonicalBang();
    ClassifyBang(Tokens(filter), "!");
  }

  lemma CanonicalBang()
    ensures Canonical("!") == "!"
  {
    assert TrimHead("!") == "!" && TrimTail("!") == "!";
    assert ToLower("!") == "!";
  }

  /** A token that normalises to a bare `!` adds the empty name to the negative list. */
  lemma ClassifyBang(ts: seq<string>, t: string)
    requires Canonical(t) == "!"
    ensures Classify(ts + [t]) == Classify(ts).(negative := Classify(ts).negative + [""])
  {
    var all := ts + [t];
    assert all[..|all| - 1] == ts && all[|all| - 1] == t;
    assert Canonical(t)[1..] == "";
  }

  /** A single run of non-space characters is one token. */
  lemma TokensOfOne(t: string)
    requires t != [] && ' ' !in t
    ensures Tokens(t) == [t]
  {
    SpanAll(t);
    assert t[0] in t;
    assert t[..|t|] == t && t[|t|..] == [];
  }

  lemma {:induction false} SpanAll(t: string)
    requires ' ' !in t
    ensures Span(t) == |t|
    decreases |t|
  {
    if t != [] {
      assert t[0] in t;
      assert forall c | c in t[1..] :: c in t;
      SpanAll(t[1..]);
    }
  }

  /** Token normalisation does not depend on letter case. */
  lemma CanonicalIgnoresCase(t: string)
    ensures Canonical(ToLower(t)) == Canonical(t)
  {
    TrimLower(t);
    ToLowerIdempotent(Trim(t));
  }

  lemma {:induction false} TrimHeadLower(s: string)
    ensures TrimHead(ToLower(s)) == ToLower(TrimHead(s))
    decreases |s|
  {
    if s != [] {
      var l := ToLower(s);
      LowerSpace(s[0]);
      assert l[0] == LowerChar(s[0]);
      if IsSpace(s[0]) {
        LowerDrop(s, 1);
        TrimHeadLower(s[1..]);
        assert TrimHead(l) == TrimHead(l[1..]);
        assert TrimHead(s) == TrimHead(s[1..]);
      } else {
        assert TrimHead(l) == l && TrimHead(s) == s;
      }
    }
  }

  lemma {:induction false} TrimTailLower(s: string)
    ensures TrimTail(ToLower(s)) == ToLower(TrimTail(s))
    decreases |s|
  {
    if s != [] {
      LowerSpace(s[|s| - 1]);
      if IsSpace(s[|s| - 1]) {
        LowerTake(s, |s| - 1);
        TrimTailLower(s[..|s| - 1]);
      }
    }
  }

  lemma LowerSpace(c: char)
    ensures IsSpace(LowerChar(c)) <==> IsSpace(c)
  {
  }

  lemma LowerDrop(s: string, n: nat)
    requires n <= |s|
    ensures ToLower(s)[n..] == ToLower(s[n..])
  {
  }

  lemma LowerTake(s: string, n: nat)
    requires n <= |s|
    ensures ToLower(s)[..n] == ToLower(s[..n])
  {
  }

  lemma TrimLower(s: string)
    ensures Trim(ToLower(s)) == ToLower(Trim(s))
  {
    TrimHeadLower(s);
    TrimTailLower(TrimHead(s));
  }

  function LowerAll(ts: seq<string>): (r: seq<string>)
    ensures |r| == |ts| && forall i | 0 <= i < |ts| :: r[i] == ToLower(ts[i])
  {
    seq(|ts|, i requires 0 <= i < |ts| => ToLower(ts[i]))
  }

  lemma {:induction false} TokensLower(s: string)
    ensures Tokens(ToLower(s)) == LowerAll(Tokens(s))
    decreases |s|
  {
    var l := ToLower(s);
    if s == [] {
    } else if s[0] == ' ' {
      LowerDrop(s, 1);
      TokensLower(s[1..]);
    } else {
      var n := Span(s);
      SpanLower(s);
      LowerTake(s, n);
      LowerDrop(s, n);
      TokensLower(s[n..]);
    }
  }

  lemma {:induction false} SpanLower(s: string)
    ensures Span(ToLower(s)) == Span(s)
    decreases |s|
  {
    if s != [] && s[0] != ' ' {
      LowerDrop(s, 1);
      SpanLower(s[1..]);
    }
  }

  lemma {:induction false} ClassifyLower(ts: seq<string>)
    ensures Classify(LowerAll(ts)) == Classify(ts)
    decreases |ts|
  {
    if ts != [] {
      var lts := LowerAll(ts);
      assert lts[..|lts| - 1] == LowerAll(ts[..|ts| - 1]);
      ClassifyLower(ts[..|ts| - 1]);
      CanonicalIgnoresCase(ts[|ts| - 1]);
    }
  }

  /**
   * A filter that differs only in letter case has the same name lists, so
   * committing it does not restart the filter pass.
   */
  lemma FilterIgnoresCase(filter: string)
    ensures ParseFilter(ToLower(filter)) == ParseFilter(filter)
  {
    TokensLower(filter);
    ClassifyLower(Tokens(filter));
  }

  // ---- The keep/drop decision of conditionalLog ----

  /** An entry is kept when none of its names is excluded and, if positives exist, one is included. */
  predicate Keeps(filter: Names, names: seq<string>)
  {
    && (forall n | n in names :: ToLower(n) !in filter.negative)
    && (filter.positive == [] || exists n | n in names :: ToLower(n) in filter.positive)
  }

  /**
   * The loop of conditionalLog over the entry's names, with its
   * `have_positive` flag: it stops at the first excluded name, and, when
   * nothing is excluded, at the first included one.
   */
  method Admits(filter: Names, names: seq<string>) returns (keep: bool)
    ensures keep == Keeps(filter, names)
  {
    var havePositive := false;
    var i := 0;
    while i < |names|
      invariant 0 <= i <= |names|
      invariant forall j | 0 <= j < i :: ToLower(names[j]) !in filter.negative
      invariant havePositive <==> filter.positive != [] && exists j | 0 <= j < i :: ToLower(names[j]) in filter.positive
    {
      var findName := ToLower(names[i]);
      if !havePositive && filter.positive != [] {
        if findName in filter.positive {
          havePositive := true;
        }
      }
      if filter.negative != [] {
        if findName in filter.negative {
          assert names[i] in names;
          return false;
        }
      } else if havePositive {
        assert names[i] in names;
        break;
      }
      i := i + 1;
    }
    if filter.positive != [] && !havePositive {
      assert forall n | n in names :: ToLower(n) !in filter.positive by {
        forall n | n in names ensures ToLower(n) !in filter.positive {
          var j :| 0 <= j < |names| && names[j] == n;
        }
      }
      return false;
    }
    assert forall n | n in names :: ToLower(n) !in filter.negative by {
      forall n | n in names ensures ToLower(n) !in filter.negative {
        var j :| 0 <= j < |names| && names[j] == n;
      }
    }
    return true;
  }

  /** The default filter of an empty string keeps every entry. */
  lemma EmptyFilterKeepsAll(names: seq<string>)
    ensures ParseFilter("") == Names([], [])
    ensures Keeps(ParseFilter(""), names)
  {
  }

  /** An entry carrying an excluded name is dropped whatever positive names it also carries. */
  lemma ExcludedNameDrops(filter: string, names: seq<string>, token: string, name: string)
    requires token in Tokens(filter) && NegativeToken(token, ToLower(name)) && name in names
    ensures !Keeps(ParseFilter(filter), names)
  {
    ClassifyNegative(Tokens(filter), ToLower(name));
  }

  /** With positive names given, an entry none of whose names is positive is dropped. */
  lemma UnnamedEntryDrops(filter: string, names: seq<string>, token: string, positive: string)
    requires token in Tokens(filter) && PositiveToken(token, positive)
    requires forall n | n in names :: !exists t | t in Tokens(filter) :: PositiveToken(t, ToLower(n))
    ensures !Keeps(ParseFilter(filter), names)
  {
    ClassifyPositive(Tokens(filter), positive);
    forall n | n in names ensures ToLower(n) !in ParseFilter(filter).positive {
      ClassifyPositive(Tokens(filter), ToLower(n));
    }
  }

  // ---- Log entries ----

  datatype EntryKind = Template | HttpRequest | HttpResponse

  /** A logged message: its kind and the message names the easy-message reader gives it. */
  datatype LogEntry = LogEntry(kind: EntryKind, names: seq<string>)

  /** The entries a filter keeps, in log order. */
  function KeptEntries(filter: Names, entries: seq<LogEntry>): (r: seq<LogEntry>)
    ensures |r| <= |entries|
    decreases |entries|
  {
    if entries == [] then []
    else
      var rest := KeptEntries(filter, entries[..|entries| - 1]);
      var e := entries[|entries| - 1];
      if Keeps(filter, e.names) then rest + [e] else rest
  }

  /** A pass keeps exactly the entries of the log the filter keeps. */
  lemma {:induction false} KeptEntriesMembers(filter: Names, entries: seq<LogEntry>, e: LogEntry)
    ensures e in KeptEntries(filter, entries) <==> e in entries && Keeps(filter, e.names)
    decreases |entries|
  {
    if entries != [] {
      var init, last := entries[..|entries| - 1], entries[|entries| - 1];
      KeptEntriesMembers(filter, init, e);
      assert entries == init + [last];
    }
  }

  /** Offering one more entry to a pass extends what it kept by that entry or by nothing. */
  lemma KeptEntriesSnoc(filter: Names, entries: seq<LogEntry>, e: LogEntry)
    ensures KeptEntries(filter, entries + [e])
         == KeptEntries(filter, entries) + (if Keeps(filter, e.names) then [e] else [])
  {
    assert (entries + [e])[..|entries|] == entries;
  }

  /** The same step for the prefixes of one log. */
  lemma KeptEntriesPrefix(filter: Names, entries: seq<LogEntry>, i: nat)
    requires i < |entries|
    ensures KeptEntries(filter, entries[..i + 1])
         == KeptEntries(filter, entries[..i]) + (if Keeps(filter, entries[i].names) then [entries[i]] else [])
  {
    assert entries[..i] + [entries[i]] == entries[..i + 1];
    KeptEntriesSnoc(filter, entries[..i], entries[i]);
  }

  lemma NamelessFilterKeeps(filter: Names, names: seq<string>)
    requires filter.positive == [] && filter.negative == []
    ensures Keeps(filter, names)
  {
  }

  /** With no names in the filter, a filter pass keeps the whole log. */
  lemma EmptyFilterKeepsLog(entries: seq<LogEntry>)
    ensures KeptEntries(Names([], []), entries) == entries
  {
    NamelessFilterKeepsLog(Names([], []), entries);
  }

  lemma {:induction false} NamelessFilterKeepsLog(filter: Names, entries: seq<LogEntry>)
    requires filter.positive == [] && filter.negative == []
    ensures KeptEntries(filter, entries) == entries
    decreases |entries|
  {
    if entries != [] {
      var n := |entries| - 1;
      NamelessFilterKeepsLog(filter, entries[..n]);
      NamelessFilterKeeps(filter, entries[n].names);
      KeptEntriesPrefix(filter, entries, n);
      assert entries[..n + 1] == entries;
    }
  }

  /** The log after onLog's trimming: its newest MAX_LOG_ENTRIES entries. */
  function Retained(entries: seq<LogEntry>): (r: seq<LogEntry>)
    ensures |r| <= MAX_LOG_ENTRIES && |r| <= |entries| && r == entries[|entries| - |r|..]
    ensures |entries| <= MAX_LOG_ENTRIES ==> r == entries
    ensures |entries| > MAX_LOG_ENTRIES ==> |r| == MAX_LOG_ENTRIES
  {
    if |entries| <= MAX_LOG_ENTRIES then entries else entries[|entries| - MAX_LOG_ENTRIES..]
  }

  /**
   * The message-list sort for column 0 (the sequence number): a
   * three-way numeric comparison of the cells read as integers; other
   * columns use the dictionary comparison `compareDict` of the cell strings.
   */
  function SortMessageList(column: int, cell1: V, cell2: V, compareDict: (string, string) -> int): (r: int)
    ensures column == 0 ==> -1 <= r <= 1 && (r == 0 <==> AsInteger(cell1) == AsInteger(cell2))
    ensures column != 0 ==> r == compareDict(AsString(cell1), AsString(cell2))
  {
    if column == 0 then CompareNumbers(AsInteger(cell1), AsInteger(cell2))
    else compareDict(AsString(cell1), AsString(cell2))
  }

  function CompareNumbers(a: int, b: int): (r: int)
    ensures r == 0 <==> a == b
    ensures r == 1 <==> a > b
    ensures r == -1 <==> a < b
  {
    if a == b then 0 else if a > b then 1 else -1
  }

  /**
   * The sequence cells hold the sequence numbers as decimal strings
   * (llformat("%u")); column 0 orders them by their numeric values.
   */
  lemma SortBySequenceNumber(a: nat, b: nat, compareDict: (string, string) -> int)
    ensures SortMessageList(0, Str(NatToString(a)), Str(NatToString(b)), compareDict) == CompareNumbers(a, b)
  {
    ParseNatToString(a);
    ParseNatToString(b);
  }

  /** The column-0 comparison is antisymmetric and transitive, so it orders the list consistently. */
  lemma CompareConsistent(a: int, b: int, c: int)
    ensures CompareNumbers(a, b) == -CompareNumbers(b, a)
    ensures CompareNumbers(a, b) <= 0 && CompareNumbers(b, c) <= 0 ==> CompareNumbers(a, c) <= 0
  {
  }

  // ---- LLMessageLogFilter ----

  class MessageLogFilter {
    var asString: string
    var positiveNames: seq<string>
    var negativeNames: seq<string>

    function Value(): Names
      reads this
    {
      Names(positiveNames, negativeNames)
    }

    constructor (filter: string)
      ensures asString == filter && Value() == ParseFilter(filter)
    {
      asString := filter;
      positiveNames, negativeNames := [], [];
      new;
      Set(filter);
    }

    /** set: the raw string is kept and both lists are cleared and rebuilt from its tokens. */
    method Set(filter: string)
      modifies this
      ensures asString == filter && Value() == ParseFilter(filter)
    {
      asString := filter;
      positiveNames := [];
      negativeNames := [];
      var tokens := Tokens(filter);
      var i := 0;
      while i < |tokens|
        invariant 0 <= i <= |tokens| && asString == filter
        invariant Value() == Classify(tokens[..i])
      {
        assert tokens[..i + 1][..i] == tokens[..i];
        var token := Trim(tokens[i]);
        if |token| > 0 {
          token := ToLower(token);
          if token[0] == '!' {
            negativeNames := negativeNames + [token[1..]];
          } else {
            positiveNames := positiveNames + [token];
          }
        }
        i := i + 1;
      }
      assert tokens[..|tokens|] == tokens;
    }
  }

  // ---- LLFloaterMessageLog ----

  class MessageLogFloater {
    /** sMessageLogEntries: the raw log. */
    var entries: seq<LogEntry>
    /** mFloaterMessageLogItems: the entries the filter kept. */
    var items: seq<LogEntry>
    /** mMessagesLogged */
    var logged: nat
    /** A filter pass is running (mMessageLogFilterApply is set). */
    var applying: bool
    var filter: MessageLogFilter

    constructor ()
      ensures entries == [] && items == [] && logged == 0 && !applying
      ensures fresh(filter) && filter.asString == DEFAULT_FILTER && filter.Value() == ParseFilter(filter.asString)
    {
      entries, items, logged, applying := [], [], 0, false;
      var f := MessageLogFloater.DefaultFilter();
      filter := f;
    }

    /** mMessageLogFilter's initial value: the filter built from DEFAULT_FILTER. */
    static method DefaultFilter() returns (f: MessageLogFilter)
      ensures fresh(f) && f.asString == DEFAULT_FILTER && f.Value() == ParseFilter(f.asString)
    {
      f := new MessageLogFilter(DEFAULT_FILTER);
    }

    /**
     * onLog: a response goes to HTTP pairing, which is not modelled; any
     * other entry is appended to the raw log, after the oldest entries are
     * dropped down to MAX_LOG_ENTRIES unless a filter pass is running, and
     * then offered to the filter.
     */
    method OnLog(entry: LogEntry)
      modifies this
      ensures entry.kind == HttpResponse ==> unchanged(this)
      ensures entry.kind != HttpResponse ==>
        && entries == (if old(applying) then old(entries) else Retained(old(entries))) + [entry]
        && logged == old(logged) + 1 && applying == old(applying) && filter == old(filter)
        && items == old(items) + (if Keeps(filter.Value(), entry.names) then [entry] else [])
      ensures entry.kind != HttpResponse && !applying ==> |entries| <= MAX_LOG_ENTRIES + 1
      ensures entry.kind != HttpResponse ==> entries[|entries| - 1] == entry
    {
      if entry.kind == HttpResponse {
        return;
      }
      ghost var before := entries;
      while !applying && |entries| > MAX_LOG_ENTRIES
        invariant entries == before[|before| - |entries|..]
        invariant |before| > MAX_LOG_ENTRIES ==> |entries| >= MAX_LOG_ENTRIES
        invariant applying || |before| <= MAX_LOG_ENTRIES ==> entries == before
        invariant applying == old(applying) && filter == old(filter) && items == old(items) && logged == old(logged)
        decreases |entries|
      {
        entries := entries[1..];
      }
      logged := logged + 1;
      entries := entries + [entry];
      ConditionalLog(entry);
    }

    /** conditionalLog: the entry joins the shown items when the filter keeps it. */
    method ConditionalLog(entry: LogEntry)
      modifies this
      ensures items == old(items) + (if Keeps(filter.Value(), entry.names) then [entry] else [])
      ensures entries == old(entries) && logged == old(logged) && applying == old(applying) && filter == old(filter)
    {
      var keep := Admits(filter.Value(), entry.names);
      if keep {
        items := items + [entry];
      }
    }

    /**
     * startApplyingFilter: a new filter replaces the current one, clears
     * the shown items and starts a pass only when forced or when its
     * positive or negative list differs from the current one.
     */
    method StartApplyingFilter(text: string, force: bool)
      modifies this
      ensures entries == old(entries)
      ensures force || ParseFilter(text) != old(filter.Value()) ==>
        && fresh(filter) && filter.asString == text && filter.Value() == ParseFilter(text)
        && items == [] && logged == |entries| && applying
      ensures !(force || ParseFilter(text) != old(filter.Value())) ==> unchanged(this)
    {
      var newFilter := new MessageLogFilter(text);
      if force || newFilter.negativeNames != filter.negativeNames || newFilter.positiveNames != filter.positiveNames {
        StopApplyingFilter();
        filter := newFilter;
        logged := |entries|;
        items := [];
        applying := true;
      }
    }

    /** stopApplyingFilter: the running pass, if any, is cancelled. */
    method StopApplyingFilter()
      modifies this
      ensures !applying
      ensures entries == old(entries) && items == old(items) && logged == old(logged) && filter == old(filter)
    {
      applying := false;
    }

    /**
     * A whole filter pass (the timer ticks of LLMessageLogFilterApply run
     * back to back): every raw entry is offered to the filter in order,
     * then the pass stops.
     */
    method ApplyFilterPass()
      modifies this
      ensures items == old(items) + KeptEntries(filter.Value(), entries)
      ensures !applying && entries == old(entries) && filter == old(filter) && logged == old(logged)
    {
      ghost var f := filter.Value();
      var i := 0;
      while i < |entries|
        invariant 0 <= i <= |entries|
        invariant entries == old(entries) && filter == old(filter) && logged == old(logged)
        invariant filter.Value() == f
        invariant items == old(items) + KeptEntries(f, entries[..i])
      {
        KeptEntriesPrefix(f, entries, i);
        ConditionalLog(entries[i]);
        i := i + 1;
      }
      assert entries[..|entries|] == entries;
      StopApplyingFilter();
    }
  }
}
