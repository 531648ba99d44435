/** `getopt_internal` (cli/lib/argtable/argtable3.c): the option branch, the argv permutation, and how
    a scan ends. Which long option a name stands for is a parameter. */
module Getopt {
  import Permute

  type Word = string

  // ----- The option branch -----

  /** `has_arg` of a long option. */
  datatype Argument = NoArgument | RequiredArgument | OptionalArgument

  /** What a name, exact or abbreviated, finds in the table of long options, and the code of the entry. */
  datatype Match = Unknown | Ambiguous | Found(argument: Argument, code: nat)

  /** `long_options`: NULL, or a table searched for a name; a single character that is also a short
      option may be asked not to abbreviate. */
  datatype LongOptions = NoLong | Long(find: (Word, bool) -> Match)

  /** What one call does with the option it finds: the code it returns, the whole words it moves
      past, and the rest of the current word when a cluster of short options is not used up. */
  datatype Outcome = Outcome(code: int, words: nat, rest: Word)

  /** What a scan does with a non-option: skip it, return it in order, or stop there. */
  datatype Mode = Permuting | Ordering | Stopping

  /** Where it ends: behind everything, at a '-' that ends a cluster and is no option, or at a non-option. */
  datatype End = Over | AtStray | AtWord

  /** One step: a non-option skipped, an option with its words (none while a cluster lasts), a
      non-option returned in order, or the end marker. */
  datatype Step = Skip | Take(words: nat) | InOrder | EndMark {
    function Width(): nat { match this case Take(k) => k case _ => 1 }
  }

  /** How a scan goes on: the steps it takes, and the codes it returns, one a call, before it ends. */
  datatype Fate = Fate(end: End, steps: seq<Step>, codes: seq<int>) {
    function After(step: Step): Fate { Fate(end, [step] + steps, codes) }

    function Returning(code: int): Fate { Fate(end, steps, [code] + codes) }
  }

  function Index(s: Word, c: char): (i: nat)
    ensures i <= |s| && (i < |s| <==> c in s) && (i < |s| ==> s[i] == c)
  {
    if s == "" || s[0] == c then 0 else 1 + Index(s[1..], c)
  }

  /** The character of a string at i, where 0 ends it. */
  function At(s: Word, i: nat): char { if i < |s| then s[i] else 0 as char }

  function Last(w: Word): char
    requires w != ""
  {
    w[|w| - 1]
  }

  predicate IsOption(w: Word) { |w| > 1 && w[0] == '-' }

  /** The option string without its prefix, the long options, and FLAG_LONGONLY. */
  datatype Grammar = Grammar(options: Word, long: LongOptions, longOnly: bool) {
    function BadChar(): int { '?' as int }

    function BadArg(): int { if At(options, 0) == ':' then ':' as int else '?' as int }

    /** A '-' left of a cluster that is no option letter. */
    predicate Stray(text: Word) { text == "-" && (long.Long? || '-' !in options) }

    /** `parse_long_options` on `text`, with optind at i: the code, and how far optind moves. */
    function LongOption(argv: seq<Word>, i: nat, text: Word, shortToo: bool): (o: Outcome)
      requires long.Long? && i < |argv|
      ensures i + o.words <= |argv| && o.rest == ""
      ensures if o.code == -1 then shortToo && o.words == 0 else o.code >= 0 && o.words > 0
    {
      var equal := Index(text, '=');
      match long.find(text[..equal], shortToo)
      case Ambiguous => Outcome(BadChar(), 1, "")
      case Unknown => if shortToo then Outcome(-1, 0, "") else Outcome(BadChar(), 1, "")
      case Found(argument, code) =>
        if argument.NoArgument? && equal < |text| then Outcome(BadChar(), 1, "")
        else if argument.RequiredArgument? && equal == |text| then
          if i + 1 < |argv| then Outcome(code, 2, "") else Outcome(BadArg(), 1, "")
        else Outcome(code, 1, "")
    }

    /** The part of the option branch that reads one letter. */
    function ShortOption(argv: seq<Word>, i: nat, text: Word): (o: Outcome)
      requires i < |argv| && text != "" && (text == "-" ==> long.NoLong?)
      ensures i + o.words <= |argv| && (o.rest != "" ==> o.words == 0 && o.rest == text[1..])
      ensures o.words == 0 && o.rest == "" <==> Stray(text)
      ensures o.code == -1 <==> Stray(text)
    {
      var c, rest, at := text[0], text[1..], Index(options, text[0]);
      var last := if rest == "" then 1 else 0;
      if c == ':' || (c == '-' && rest != "") || at == |options| then
        if c == '-' && rest == "" then Outcome(-1, 0, "") else Outcome(BadChar(), last, rest)
      else if long.Long? && c == 'W' && At(options, at + 1) == ';' then
        if rest != "" then LongOption(argv, i, rest, false)
        else if i + 1 == |argv| then Outcome(BadArg(), 1, "")
        else var o := LongOption(argv, i + 1, argv[i + 1], false); o.(words := o.words + 1)
      else if At(options, at + 1) != ':' then Outcome(c as int, last, rest)
      else if rest != "" || At(options, at + 2) == ':' then Outcome(c as int, 1, "")
      else if i + 1 == |argv| then Outcome(BadArg(), 1, "")
      else Outcome(c as int, 2, "")
    }

    /** The option branch: only a stray '-' keeps it from moving on, and only without long options does
        it return -1 there. */
    function Option(argv: seq<Word>, i: nat, text: Word): (o: Outcome)
      requires i < |argv| && text != ""
      ensures i + o.words <= |argv| && (o.rest != "" ==> o.words == 0 && o.rest == text[1..])
      ensures o.words == 0 && o.rest == "" <==> Stray(text)
      ensures o.code == -1 <==> Stray(text) && long.NoLong?
      ensures Stray(text) && long.Long? ==> o.code == BadArg()
    {
      if long.Long? && (text[0] == '-' || longOnly) then
        if text == "-" then Outcome(BadArg(), 0, "")
        else if text[0] == '-' then LongOption(argv, i, text[1..], false)
        else
          var o := LongOption(argv, i, text, text[0] != ':' && text[0] in options);
          if o.code != -1 then o else ShortOption(argv, i, text)
      else ShortOption(argv, i, text)
    }

    /** Of argv it reads no more than the next word. */
    lemma OptionReads(a: seq<Word>, b: seq<Word>, i: nat, text: Word)
      requires i < |a| == |b| && text != "" && a[i..] == b[i..]
      ensures Option(a, i, text) == Option(b, i, text)
    {
      if i + 1 < |a| { assert a[i + 1] == a[i..][1] == b[i..][1] == b[i + 1]; }
    }

    /** A scan, from the rest of a cluster at argv[i] or from the start of a word. */
    function Walk(argv: seq<Word>, i: nat, text: Word, mode: Mode): (f: Fate)
      requires i <= |argv| && (text != "" ==> i < |argv|)
      decreases |argv| - i, text == "", |text|
    {
      if text == "" then
        if i == |argv| then Fate(Over, [], [])
        else if argv[i] == "--" then Fate(Over, [EndMark], [])
        else if IsOption(argv[i]) then Walk(argv, i, argv[i][1..], mode)
        else match mode
          case Permuting => Walk(argv, i + 1, "", mode).After(Skip)
          case Ordering => Walk(argv, i + 1, "", mode).After(InOrder).Returning(1)
          case Stopping => Fate(AtWord, [], [])
      else if Stray(text) then Fate(AtStray, [], [])
      else
        var o := Option(argv, i, text);
        Walk(argv, i + o.words, o.rest, mode).After(Take(o.words)).Returning(o.code)
    }

    lemma WalkWord(argv: seq<Word>, i: nat, mode: Mode)
      requires i <= |argv|
      ensures Walk(argv, i, "", mode) ==
                if i == |argv| then Fate(Over, [], [])
                else if argv[i] == "--" then Fate(Over, [EndMark], [])
                else if IsOption(argv[i]) then Walk(argv, i, argv[i][1..], mode)
                else match mode
                  case Permuting => Walk(argv, i + 1, "", mode).After(Skip)
                  case Ordering => Walk(argv, i + 1, "", mode).After(InOrder).Returning(1)
                  case Stopping => Fate(AtWord, [], [])
    {
    }

    lemma WalkOption(argv: seq<Word>, i: nat, text: Word, mode: Mode)
      requires i < |argv| && text != ""
      ensures Stray(text) ==> Walk(argv, i, text, mode) == Fate(AtStray, [], [])
      ensures !Stray(text) ==>
        var o := Option(argv, i, text);
        && (o.words > 0 || o.rest != "")
        && Walk(argv, i, text, mode) == Walk(argv, i + o.words, o.rest, mode).After(Take(o.words)).Returning(o.code)
    {
    }

    /** Words that do not both begin and end with '-' cannot lead to a stray one. */
    lemma {:induction false} StrayNeedsDash(argv: seq<Word>, i: nat, text: Word, mode: Mode)
      requires i <= |argv| && (text != "" ==> i < |argv| && IsOption(argv[i]))
      requires text != "" ==> Last(text) == Last(argv[i])
      requires forall k :: i <= k < |argv| && IsOption(argv[k]) && argv[k] != "--" ==> Last(argv[k]) != '-'
      requires text != "" ==> argv[i] != "--"
      ensures !Walk(argv, i, text, mode).end.AtStray?
      decreases |argv| - i, text == "", |text|
    {
      hide Walk, Option;
      if text == "" {
        WalkWord(argv, i, mode);
        if i < |argv| && argv[i] != "--" {
          if IsOption(argv[i]) {
            StrayNeedsDash(argv, i, argv[i][1..], mode);
          } else if !mode.Stopping? {
            StrayNeedsDash(argv, i + 1, "", mode);
          }
        }
      } else {
        WalkOption(argv, i, text, mode);
        var o := Option(argv, i, text);
        StrayNeedsDash(argv, i + o.words, o.rest, mode);
      }
    }

    // ----- The same, read off the option string -----

    /** A letter c declared in an option string p c q takes no more than q says, and returns itself:
        without ':' nothing, with '::' its own word, with ':' the rest of its word or else exactly the
        next word. */
    lemma DeclaredLetter(argv: seq<Word>, i: nat, p: Word, c: char, q: Word, rest: Word)
      requires i < |argv| && options == p + [c] + q && c !in p
      requires c != ':' && !(c == '-' && (rest != "" || long.Long?)) && !(long.Long? && longOnly)
      requires !(long.Long? && c == 'W' && q != "" && q[0] == ';')
      ensures Option(argv, i, [c] + rest) ==
                if q == "" || q[0] != ':' then Outcome(c as int, if rest == "" then 1 else 0, rest)
                else if rest != "" || (|q| > 1 && q[1] == ':') then Outcome(c as int, 1, "")
                else if i + 1 < |argv| then Outcome(c as int, 2, "")
                else Outcome(if options[0] == ':' then ':' as int else '?' as int, 1, "")
    {
      IndexFirst(p, c, q);
      assert ([c] + rest)[1..] == rest;
    }

    /** A letter that the option string does not declare, or ':', is answered with '?', and the cluster
        goes on behind it. So is a '-' inside a cluster without long options. */
    lemma UndeclaredLetter(argv: seq<Word>, i: nat, c: char, rest: Word)
      requires i < |argv| && (c == ':' || c !in options || (c == '-' && rest != "")) && !(long.Long? && longOnly)
      requires c == '-' ==> rest != "" && long.NoLong?
      ensures Option(argv, i, [c] + rest) == Outcome('?' as int, if rest == "" then 1 else 0, rest)
    {
      assert ([c] + rest)[1..] == rest;
    }

    /** A '-' at the end of a cluster that is no option letter keeps the scan where it is. */
    lemma LoneDash(argv: seq<Word>, i: nat)
      requires i < |argv| && (long.Long? || '-' !in options)
      ensures Stray("-")
      ensures Option(argv, i, "-")
        == if long.NoLong? then Outcome(-1, 0, "")
           else Outcome(if options != "" && options[0] == ':' then ':' as int else '?' as int, 0, "")
    {
      assert "-"[1..] == "";
    }

    /** How a name, with or without "=value", is answered that stands at the end of k words. */
    function NameAnswer(m: Match, valued: bool, k: nat, more: bool): Outcome {
      var missing := if options != "" && options[0] == ':' then ':' as int else '?' as int;
      match m
      case Unknown => Outcome('?' as int, k, "")
      case Ambiguous => Outcome('?' as int, k, "")
      case Found(NoArgument, code) => if valued then Outcome('?' as int, k, "") else Outcome(code, k, "")
      case Found(RequiredArgument, code) =>
        if valued then Outcome(code, k, "") else if more then Outcome(code, k + 1, "") else Outcome(missing, k, "")
      case Found(OptionalArgument, code) => Outcome(code, k, "")
    }

    lemma NameAnswered(argv: seq<Word>, i: nat, name: Word, valued: bool, value: Word, shortToo: bool)
      requires i < |argv| && long.Long? && '=' !in name
      ensures var text, m := name + if valued then "=" + value else "", long.find(name, shortToo);
        LongOption(argv, i, text, shortToo)
        == if m.Unknown? && shortToo then Outcome(-1, 0, "") else NameAnswer(m, valued, 1, i + 1 < |argv|)
    {
      NameEnds(name, valued, value);
    }

    /** A long option "--name" or "--name=value": only one with a required argument and no value takes
        the next word. */
    lemma LongName(argv: seq<Word>, i: nat, name: Word, valued: bool, value: Word)
      requires i < |argv| && long.Long? && '=' !in name && (name != "" || valued)
      ensures Option(argv, i, "-" + (name + if valued then "=" + value else ""))
        == NameAnswer(long.find(name, false), valued, 1, i + 1 < |argv|)
    {
      hide LongOption, NameAnswer, ShortOption, Stray;
      var text := name + if valued then "=" + value else "";
      NameAnswered(argv, i, name, valued, value, false);
      assert ("-" + text)[1..] == text;
    }

    /** With FLAG_LONGONLY also behind a single '-', unless it may be a short option and finds nothing. */
    lemma LongOnlyName(argv: seq<Word>, i: nat, name: Word, valued: bool, value: Word)
      requires i < |argv| && long.Long? && longOnly && '=' !in name && name != "" && name[0] != '-'
      ensures var m := long.find(name, name[0] != ':' && name[0] in options);
        m != Unknown || name[0] == ':' || name[0] !in options ==>
        Option(argv, i, name + if valued then "=" + value else "") == NameAnswer(m, valued, 1, i + 1 < |argv|)
    {
      hide LongOption, ShortOption, Stray;
      NameAnswered(argv, i, name, valued, value, name[0] != ':' && name[0] in options);
    }

    /** With FLAG_LONGONLY a name that finds nothing but may be a short option is read as letters. */
    lemma LongOnlyLetters(argv: seq<Word>, i: nat, text: Word)
      requires i < |argv| && text != "" && long.Long? && longOnly
      requires text[0] != '-' && text[0] != ':' && text[0] in options
      requires long.find(text[..Index(text, '=')], true) == Unknown
      ensures Option(argv, i, text) == Grammar(options, long, false).Option(argv, i, text)
    {
      hide ShortOption, Stray;
      SameLetters(argv, i, text, false);
    }

    /** FLAG_LONGONLY is none of the letters' business. */
    lemma SameLetters(argv: seq<Word>, i: nat, text: Word, only: bool)
      requires i < |argv| && text != "" && (text == "-" ==> long.NoLong?)
      ensures ShortOption(argv, i, text) == Grammar(options, long, only).ShortOption(argv, i, text)
    {
      hide LongOption, Stray;
      if long.Long? {
        if text[1..] != "" { SameNames(argv, i, text[1..], only); }
        if i + 1 < |argv| { SameNames(argv, i + 1, argv[i + 1], only); }
      }
    }

    lemma SameNames(argv: seq<Word>, i: nat, text: Word, only: bool)
      requires i < |argv| && long.Long?
      ensures LongOption(argv, i, text, false) == Grammar(options, long, only).LongOption(argv, i, text, false)
    {
    }

    /** "-Wname" and "-W name", where the option string says "W;". */
    lemma DoubleDashed(argv: seq<Word>, i: nat, p: Word, q: Word, name: Word, valued: bool, value: Word, apart: bool)
      requires i < |argv| && long.Long? && !longOnly && options == p + (['W'] + (";" + q)) && 'W' !in p
      requires '=' !in name
      requires var text := name + if valued then "=" + value else "";
        if apart then i + 1 < |argv| && argv[i + 1] == text else text != ""
      ensures var k := if apart then 2 else 1;
        Option(argv, i, if apart then "W" else "W" + (name + if valued then "=" + value else ""))
        == NameAnswer(long.find(name, false), valued, k, i + k < |argv|)
    {
      hide LongOption, Stray;
      var text := name + if valued then "=" + value else "";
      NameAnswered(argv, if apart then i + 1 else i, name, valued, value, false);
      IndexFirst(p, 'W', ";" + q);
      assert p + ['W'] + (";" + q) == p + (['W'] + (";" + q));
      assert ("W" + text)[1..] == text;
    }
  }

  lemma {:induction false} IndexFirst(p: Word, c: char, q: Word)
    requires c !in p
    ensures Index(p + [c] + q, c) == |p|
  {
    if p != "" {
      IndexFirst(p[1..], c, q);
      assert (p + [c] + q)[1..] == p[1..] + [c] + q;
    }
  }

  lemma NameEnds(name: Word, valued: bool, value: Word)
    requires '=' !in name
    ensures var text := name + if valued then "=" + value else "";
      Index(text, '=') == |name| && text[..|name|] == name && (|name| < |text| <==> valued)
  {
    var text := name + if valued then "=" + value else "";
    if valued {
      IndexFirst(name, '=', value);
      assert text == name + ['='] + value;
    } else {
      assert text == name;
    }
  }

  // ----- The course of a scan, read off the original argv -----

  function Reach(first: nat, trace: seq<Step>): nat {
    if trace == [] then first else Reach(first, trace[..|trace| - 1]) + trace[|trace| - 1].Width()
  }

  ghost predicate StepFits(orig: seq<Word>, at: nat, step: Step) {
    && at < |orig| && at + step.Width() <= |orig|
    && match step
       case Skip => !IsOption(orig[at])
       case InOrder => !IsOption(orig[at])
       case Take(_) => IsOption(orig[at]) && orig[at] != "--"
       case EndMark => orig[at] == "--"
  }

  /** The trace reads orig from first on, each step where the last one stopped. */
  ghost predicate Traces(orig: seq<Word>, first: nat, trace: seq<Step>) {
    if trace == [] then first <= |orig| else
      var before := trace[..|trace| - 1];
      && Traces(orig, first, before)
      && (before != [] ==> !before[|before| - 1].EndMark?)
      && StepFits(orig, Reach(first, before), trace[|trace| - 1])
  }

  /** The words that belong to options (and the end marker), or the skipped ones, in their order. */
  ghost function Words(orig: seq<Word>, first: nat, trace: seq<Step>, skipped: bool): (ws: seq<Word>)
    requires Traces(orig, first, trace)
  {
    if trace == [] then [] else
      var before, step := trace[..|trace| - 1], trace[|trace| - 1];
      var at := Reach(first, before);
      Words(orig, first, before, skipped) +
      if step.Skip? == skipped then orig[at..at + step.Width()] else []
  }

  lemma {:induction false} WordCount(orig: seq<Word>, first: nat, trace: seq<Step>)
    requires Traces(orig, first, trace)
    ensures first <= Reach(first, trace) <= |orig|
    ensures |Words(orig, first, trace, true)| + |Words(orig, first, trace, false)| == Reach(first, trace) - first
  {
    if trace != [] { WordCount(orig, first, trace[..|trace| - 1]); }
  }

  /** The skipped words `non` with the first `front` option words before them and the others behind. */
  function Arranged<T>(before: seq<T>, opts: seq<T>, front: nat, non: seq<T>, rest: seq<T>): seq<T>
    requires front <= |opts|
  {
    before + opts[..front] + non + opts[front..] + rest
  }

  function Partitioned<T>(before: seq<T>, opts: seq<T>, non: seq<T>, rest: seq<T>): seq<T> {
    before + opts + non + rest
  }

  /** What a scan that ended with -1 leaves behind: option words in order, then the skipped
      non-option words in order, then the untouched rest, with optind at the first non-option. */
  ghost predicate StablePartition(orig: seq<Word>, cur: seq<Word>, first: nat, trace: seq<Step>, optind: int) {
    && Traces(orig, first, trace)
    && first <= Reach(first, trace) <= |orig|
    && (Reach(first, trace) == |orig| || (trace != [] && trace[|trace| - 1].EndMark?))
    && cur == Partitioned(orig[..first], Words(orig, first, trace, false),
                          Words(orig, first, trace, true), orig[Reach(first, trace)..])
    && optind == first + |Words(orig, first, trace, false)|
  }

  /** Where the words scanned so far sit while the scan goes on: `front` options are already before
      the skipped words, the others after them. */
  ghost predicate Layout(orig: seq<Word>, cur: seq<Word>, first: nat, trace: seq<Step>,
      optind: int, nonoptStart: int, nonoptEnd: int) {
    && Traces(orig, first, trace)
    && (trace != [] ==> !trace[|trace| - 1].EndMark?)
    && first <= optind == Reach(first, trace) <= |orig|
    && |cur| == |orig|
    && var opts, non := Words(orig, first, trace, false), Words(orig, first, trace, true);
       var front := if nonoptEnd == -1 then |opts| else nonoptStart - first;
       && 0 <= front <= |opts|
       && cur == Arranged(orig[..first], opts, front, non, orig[optind..])
       && (nonoptStart == -1 <==> non == [])
       && (nonoptStart != -1 ==> nonoptStart == first + front)
       && (nonoptEnd != -1 ==> nonoptStart != -1 && nonoptEnd == nonoptStart + |non| <= optind)
       && (nonoptEnd == optind ==> optind < |orig| && IsOption(orig[optind]))
  }

  /** One more step in terms of the trace before it. */
  lemma StepWords(orig: seq<Word>, first: nat, trace: seq<Step>, step: Step)
    requires Traces(orig, first, trace)
    requires trace != [] ==> !trace[|trace| - 1].EndMark?
    requires StepFits(orig, Reach(first, trace), step)
    ensures Traces(orig, first, trace + [step])
    ensures Reach(first, trace + [step]) == Reach(first, trace) + step.Width()
    ensures Words(orig, first, trace + [step], !step.Skip?) == Words(orig, first, trace, !step.Skip?)
    ensures Words(orig, first, trace + [step], step.Skip?) == Words(orig, first, trace, step.Skip?)
              + orig[Reach(first, trace)..Reach(first, trace) + step.Width()]
  {
    assert (trace + [step])[..|trace + [step]| - 1] == trace;
  }

  /** The move of `permute_args` on the blocks of a layout. */
  lemma ArrangedExchange<T>(before: seq<T>, opts: seq<T>, front: nat, non: seq<T>, rest: seq<T>, ns: nat, ne: nat,
      end: nat)
    requires front <= |opts| && ns == |before| + front && ne == ns + |non| && end == |before| + |opts| + |non|
    ensures |Arranged(before, opts, front, non, rest)| == |Partitioned(before, opts, non, rest)| == end + |rest|
    ensures Permute.Exchanged(Arranged(before, opts, front, non, rest), ns, ne, end)
      == Partitioned(before, opts, non, rest)
  {
    var cur := Arranged(before, opts, front, non, rest);
    assert cur[..ns] == before + opts[..front];
    assert cur[ns..ne] == non;
    assert cur[ne..end] == opts[front..];
    assert cur[end..] == rest;
    assert before + opts[..front] + opts[front..] == before + opts;
  }

  /** New option words at the end of the options already scanned. */
  lemma ArrangedTake<T>(before: seq<T>, opts: seq<T>, front: nat, non: seq<T>, rest: seq<T>, k: nat, front': nat)
    requires front <= |opts| && k <= |rest| && front' <= |opts| + k && (front' == front || non == [])
    ensures Arranged(before, opts, front, non, rest) == Arranged(before, opts + rest[..k], front', non, rest[k..])
  {
    var all := opts + rest[..k];
    assert rest == rest[..k] + rest[k..];
    if non == [] {
      assert opts[..front] + opts[front..] == opts;
      assert all[..front'] + all[front'..] == all;
    } else {
      assert all[..front] == opts[..front] && all[front..] == opts[front..] + rest[..k];
    }
  }

  lemma ArrangedAll<T>(before: seq<T>, opts: seq<T>, front: nat, non: seq<T>, rest: seq<T>)
    requires front <= |opts| && (non == [] || front == |opts|)
    ensures Arranged(before, opts, front, non, rest) == Partitioned(before, opts, non, rest)
  {
    assert opts[..front] + opts[front..] == opts;
    if non != [] { assert opts[front..] == []; }
  }

  lemma PartitionedSkip<T>(before: seq<T>, opts: seq<T>, non: seq<T>, more: seq<T>, rest: seq<T>)
    ensures Partitioned(before, opts, non, more + rest) == Partitioned(before, opts, non + more, rest)
  {
  }

  /** A skipped non-option joins the skipped words. */
  lemma SkipStep(orig: seq<Word>, cur: seq<Word>, first: nat, trace: seq<Step>, optind: int, ns: int)
    requires Layout(orig, cur, first, trace, optind, ns, -1)
    requires optind < |orig| && !IsOption(orig[optind])
    ensures Layout(orig, cur, first, trace + [Skip], optind + 1, if ns == -1 then optind else ns, -1)
  {
    hide Arranged, Partitioned, Permute.Exchanged, Words, Traces, Reach;
    StepWords(orig, first, trace, Skip);
    WordCount(orig, first, trace);
    var opts, non := Words(orig, first, trace, false), Words(orig, first, trace, true);
    var here, rest := orig[optind..optind + 1], orig[optind + 1..];
    assert orig[optind..] == here + rest;
    ArrangedAll(orig[..first], opts, |opts|, non, orig[optind..]);
    ArrangedAll(orig[..first], opts, |opts|, non + here, rest);
    PartitionedSkip(orig[..first], opts, non, here, rest);
  }

  /** Before that, the options met after the skipped words move in front of them. */
  lemma PermuteStep(orig: seq<Word>, cur: seq<Word>, first: nat, trace: seq<Step>, optind: int, ns: int, ne: int)
    requires Layout(orig, cur, first, trace, optind, ns, ne)
    requires ne != -1
    ensures 0 <= ns <= ne <= optind <= |cur|
    ensures Layout(orig, Permute.Exchanged(cur, ns, ne, optind), first, trace, optind, optind - (ne - ns), -1)
  {
    hide Arranged, Partitioned, Permute.Exchanged, Words, Traces, Reach;
    WordCount(orig, first, trace);
    var opts, non := Words(orig, first, trace, false), Words(orig, first, trace, true);
    ArrangedExchange(orig[..first], opts, ns - first, non, orig[optind..], ns, ne, optind);
    ArrangedAll(orig[..first], opts, |opts|, non, orig[optind..]);
  }

  /** An option: its words follow everything scanned. */
  lemma TakeStep(orig: seq<Word>, cur: seq<Word>, first: nat, trace: seq<Step>, optind: int, ns: int, ne: int,
      step: Step)
    requires Layout(orig, cur, first, trace, optind, ns, ne)
    requires StepFits(orig, optind, step) && !step.Skip? && !step.EndMark?
    requires ns != -1 ==> ne != -1 && step.Take?
    ensures Layout(orig, cur, first, trace + [step], optind + step.Width(), ns, ne)
  {
    hide Arranged, Partitioned, Permute.Exchanged, Words, Traces, Reach;
    StepWords(orig, first, trace, step);
    WordCount(orig, first, trace);
    var opts, non := Words(orig, first, trace, false), Words(orig, first, trace, true);
    var k, rest := step.Width(), orig[optind..];
    assert rest[..k] == orig[optind..optind + k] && rest[k..] == orig[optind + k..];
    if ne == -1 {
      ArrangedTake(orig[..first], opts, |opts|, non, rest, k, |opts| + k);
    } else {
      ArrangedTake(orig[..first], opts, ns - first, non, rest, k, ns - first);
    }
  }

  /** The end of the scan when no word is left. */
  lemma EndOfWords(orig: seq<Word>, cur: seq<Word>, first: nat, trace: seq<Step>, optind: int, ns: int)
    requires Layout(orig, cur, first, trace, optind, ns, -1)
    requires optind == |orig|
    ensures StablePartition(orig, cur, first, trace, if ns == -1 then optind else ns)
  {
    hide Arranged, Partitioned, Permute.Exchanged, Words, Traces, Reach;
    WordCount(orig, first, trace);
    var opts := Words(orig, first, trace, false);
    ArrangedAll(orig[..first], opts, |opts|, Words(orig, first, trace, true), orig[optind..]);
  }

  /** What the code relies on in a layout. */
  lemma LayoutFacts(orig: seq<Word>, cur: seq<Word>, first: nat, trace: seq<Step>, optind: int, ns: int, ne: int)
    requires Layout(orig, cur, first, trace, optind, ns, ne)
    ensures first <= optind == Reach(first, trace) <= |orig| == |cur|
    ensures cur[optind..] == orig[optind..] && (optind < |orig| ==> cur[optind] == orig[optind])
    ensures trace != [] ==> !trace[|trace| - 1].EndMark?
    ensures (ns == -1 && ne == -1) || 0 <= ns <= optind
    ensures ne != -1 ==> 0 <= ns < ne <= optind && (ne == optind ==> optind < |orig| && IsOption(orig[optind]))
  {
    WordCount(orig, first, trace);
    var opts, non := Words(orig, first, trace, false), Words(orig, first, trace, true);
    var front := if ne == -1 then |opts| else ns - first;
    assert |orig[..first] + opts[..front] + non + opts[front..]| == optind;
    assert optind < |orig| ==> cur[optind..][0] == orig[optind..][0];
  }

  lemma FreshLayout(argv: seq<Word>, first: nat)
    requires first <= |argv|
    ensures Layout(argv, argv, first, [], first, -1, -1)
  {
    ArrangedAll(argv[..first], [], 0, [], argv[first..]);
  }

  /** The first option after skipped words: where they end. */
  lemma StartOptions(orig: seq<Word>, cur: seq<Word>, first: nat, trace: seq<Step>, optind: int, ns: int)
    requires Layout(orig, cur, first, trace, optind, ns, -1)
    requires optind < |orig| && IsOption(orig[optind]) && ns != -1
    ensures Layout(orig, cur, first, trace, optind, ns, optind)
  {
    hide Arranged, Partitioned, Permute.Exchanged, Words, Traces, Reach;
    WordCount(orig, first, trace);
  }

  /** The end of the scan at "--", which is the last of the option words. */
  lemma EndOfOptions(orig: seq<Word>, cur: seq<Word>, first: nat, trace: seq<Step>, optind: int)
    requires Layout(orig, cur, first, trace, optind, -1, -1)
    requires optind < |orig| && orig[optind] == "--"
    ensures StablePartition(orig, cur, first, trace + [EndMark], optind + 1)
  {
    hide Arranged, Partitioned, Permute.Exchanged, Words, Traces, Reach;
    StepWords(orig, first, trace, EndMark);
    WordCount(orig, first, trace);
    var opts, rest := Words(orig, first, trace, false), orig[optind..];
    assert rest[..1] == orig[optind..optind + 1] && rest[1..] == orig[optind + 1..];
    ArrangedTake(orig[..first], opts, |opts|, [], rest, 1, |opts| + 1);
    ArrangedAll(orig[..first], opts + rest[..1], |opts| + 1, [], rest[1..]);
  }

  lemma EndOfOptionsPermuted(orig: seq<Word>, cur: seq<Word>, first: nat, trace: seq<Step>, optind: int, ns: int,
      ne: int)
    requires Layout(orig, cur, first, trace, optind, ns, ne)
    requires optind < |orig| && orig[optind] == "--" && ne != -1
    ensures 0 <= ns <= ne < optind + 1 <= |cur|
    ensures StablePartition(orig, Permute.Exchanged(cur, ns, ne, optind + 1), first, trace + [EndMark],
      optind + 1 - (ne - ns))
  {
    hide Arranged, Partitioned, Permute.Exchanged, Words, Traces, Reach;
    StepWords(orig, first, trace, EndMark);
    WordCount(orig, first, trace);
    var opts, non := Words(orig, first, trace, false), Words(orig, first, trace, true);
    var rest := orig[optind..];
    assert rest[..1] == orig[optind..optind + 1] && rest[1..] == orig[optind + 1..];
    ArrangedTake(orig[..first], opts, ns - first, non, rest, 1, ns - first);
    ArrangedExchange(orig[..first], opts + rest[..1], ns - first, non, rest[1..], ns, ne, optind + 1);
  }

  // ----- getopt_internal -----

  datatype Next = Again | ScanOption | Return(code: int)

  /** The statics of the parser, with the scan they belong to. `orig`, `first` and `trace` are the
      argv and optind the scan began with and the steps it has taken. */
  class Getopt {
    const grammar: Grammar
    const permuting: bool
    const inOrder: bool
    var optind: int
    var optreset: bool
    var nonoptStart: int
    var nonoptEnd: int
    var place: Word
    ghost var orig: seq<Word>
    ghost var first: nat
    ghost var trace: seq<Step>

    /** The flags that `options` and POSIXLY_CORRECT leave of FLAG_PERMUTE and FLAG_ALLARGS. */
    constructor (opts: Word, long: LongOptions, longOnly: bool, flagPermute: bool, posixlyCorrect: bool,
        nargv: array<Word>)
      requires nargv.Length >= 1
      ensures Valid(nargv) && orig == nargv[..] && first == 1 == optind && trace == [] && place == ""
      ensures inOrder == (At(opts, 0) == '-')
      ensures permuting == (flagPermute && (inOrder || !(posixlyCorrect || At(opts, 0) == '+')))
      ensures grammar == Grammar(if At(opts, 0) in {'+', '-'} then opts[1..] else opts, long, longOnly)
    {
      var prefix := At(opts, 0);
      inOrder := prefix == '-';
      permuting := flagPermute && (prefix == '-' || !(posixlyCorrect || prefix == '+'));
      grammar := Grammar(if prefix == '+' || prefix == '-' then opts[1..] else opts, long, longOnly);
      optind, optreset, nonoptStart, nonoptEnd, place := 1, true, -1, -1, "";
      orig, first, trace := nargv[..], 1, [];
      FreshLayout(nargv[..], 1);
    }

    ghost function Mode(): Mode { if inOrder then Ordering else if permuting then Permuting else Stopping }

    ghost predicate Valid(nargv: array<Word>)
      reads this, nargv
    {
      && Layout(orig, nargv[..], first, trace, optind, nonoptStart, nonoptEnd)
      && (Mode() != Permuting ==> nonoptStart == -1 && nargv[..] == orig)
      && (optreset ==> nonoptStart == -1 && nonoptEnd == -1)
      && (place != "" && !optreset ==>
            && optind < |orig| && IsOption(orig[optind]) && orig[optind] != "--"
            && Last(place) == Last(orig[optind])
            && (nonoptStart != -1 ==> nonoptEnd != -1))
    }

    /** The end of argv: permute if something was skipped, and put optind at the first non-option. */
    method EndScan(nargv: array<Word>)
      requires Valid(nargv) && !optreset && place == "" && optind >= nargv.Length
      modifies this, nargv
      ensures Valid(nargv) && orig == nargv[..] && first == optind <= nargv.Length && trace == [] && !optreset
      ensures place == ""
      ensures StablePartition(old(orig), nargv[..], old(first), old(trace), optind)
    {
      hide Layout, StablePartition;
      LayoutFacts(orig, nargv[..], first, trace, optind, nonoptStart, nonoptEnd);
      if nonoptEnd != -1 {
        PermuteStep(orig, nargv[..], first, trace, optind, nonoptStart, nonoptEnd);
        Permute.PermuteArgs(nonoptStart, nonoptEnd, optind, nargv);
        EndOfWords(orig, nargv[..], first, trace, optind, optind - (nonoptEnd - nonoptStart));
        optind := optind - (nonoptEnd - nonoptStart);
      } else {
        EndOfWords(orig, nargv[..], first, trace, optind, nonoptStart);
        if nonoptStart != -1 {
          optind := nonoptStart;
        }
      }
      NewScan(nargv);
    }

    method NewScan(nargv: array<Word>)
      requires 0 <= optind <= nargv.Length && place == ""
      modifies this
      ensures Valid(nargv) && orig == nargv[..] && first == optind == old(optind) && trace == []
      ensures place == "" && optreset == old(optreset)
    {
      hide Layout;
      nonoptStart, nonoptEnd := -1, -1;
      orig, first, trace := nargv[..], optind, [];
      FreshLayout(orig, first);
    }

    /** A non-option in permute mode: the options met since the last ones move in front of those. */
    method SkipWord(nargv: array<Word>)
      requires Valid(nargv) && !optreset && place == "" && Mode() == Permuting
      requires optind < nargv.Length && !IsOption(nargv[optind])
      modifies this, nargv
      ensures Valid(nargv) && !optreset && place == ""
      ensures orig == old(orig) && first == old(first) && trace == old(trace) + [Skip] && optind == old(optind) + 1
    {
      hide Layout;
      LayoutFacts(orig, nargv[..], first, trace, optind, nonoptStart, nonoptEnd);
      if nonoptStart == -1 {
        SkipStep(orig, nargv[..], first, trace, optind, -1);
        nonoptStart := optind;
      } else if nonoptEnd != -1 {
        PermuteStep(orig, nargv[..], first, trace, optind, nonoptStart, nonoptEnd);
        Permute.PermuteArgs(nonoptStart, nonoptEnd, optind, nargv);
        SkipStep(orig, nargv[..], first, trace, optind, optind - (nonoptEnd - nonoptStart));
        nonoptStart := optind - (nonoptEnd - nonoptStart);
        nonoptEnd := -1;
      } else {
        SkipStep(orig, nargv[..], first, trace, optind, nonoptStart);
      }
      optind := optind + 1;
      trace := trace + [Skip];
    }

    /** The word "--": the last option word, after which what was skipped comes. */
    method EndAtMark(nargv: array<Word>)
      requires Layout(orig, nargv[..], first, trace, optind, nonoptStart, nonoptEnd) && !optreset
      requires optind < nargv.Length && nargv[optind] == "--" && (nonoptStart != -1 ==> nonoptEnd != -1)
      modifies this, nargv
      ensures Valid(nargv) && orig == nargv[..] && first == optind <= nargv.Length && trace == [] && !optreset
      ensures place == ""
      ensures StablePartition(old(orig), nargv[..], old(first), old(trace) + [EndMark], optind)
    {
      hide Layout, StablePartition;
      LayoutFacts(orig, nargv[..], first, trace, optind, nonoptStart, nonoptEnd);
      if nonoptEnd != -1 {
        EndOfOptionsPermuted(orig, nargv[..], first, trace, optind, nonoptStart, nonoptEnd);
      } else {
        EndOfOptions(orig, nargv[..], first, trace, optind);
      }
      optind := optind + 1;
      place := "";
      if nonoptEnd != -1 {
        Permute.PermuteArgs(nonoptStart, nonoptEnd, optind, nargv);
        optind := optind - (nonoptEnd - nonoptStart);
      }
      NewScan(nargv);
    }

    /** Where a scan that neither permutes nor returns non-options stops. */
    ghost predicate StopsAtWord(nargv: array<Word>)
      reads this, nargv
    {
      !permuting && !inOrder && 0 <= optind < nargv.Length && !IsOption(nargv[optind])
    }

    /** The text the option branch goes on with, or "" when the next word is to be read. */
    ghost function Text(): Word
      reads this
    {
      if optreset then "" else place
    }

    /** How the scan goes on, read off the argv it began with. */
    ghost function Ahead(nargv: array<Word>): Fate
      requires Valid(nargv)
      reads this, nargv
    {
      grammar.Walk(orig, optind, Text(), Mode())
    }

    /** All the steps of the scan, those taken and those to come. */
    ghost function Course(nargv: array<Word>): seq<Step>
      requires Valid(nargv)
      reads this, nargv
    {
      trace + Ahead(nargv).steps
    }

    /** The code that the scan answers next has been given, and the scan goes on as it would have. */
    ghost predicate Answers(nargv: array<Word>, code: int, ahead: Fate, course: seq<Step>)
      requires Valid(nargv)
      reads this, nargv
    {
      ahead.codes == [code] + Ahead(nargv).codes && ahead.end == Ahead(nargv).end && course == Course(nargv)
    }

    /** What is left of a cluster leads to a stray '-' just when the whole word does. */
    ghost predicate Steady(nargv: array<Word>)
      requires Valid(nargv)
      reads this, nargv
    {
      Ahead(nargv).end.AtStray? == grammar.Walk(orig, optind, "", Mode()).end.AtStray?
    }

    /** An option word, or "--". */
    method BeginOption(nargv: array<Word>) returns (mark: bool)
      requires Valid(nargv) && Text() == "" && !optreset && optind < nargv.Length && IsOption(nargv[optind])
      modifies this, nargv
      ensures Valid(nargv) && !optreset && optind <= nargv.Length && mark == (old(nargv[optind]) == "--")
      ensures mark ==>
        && StablePartition(old(orig), nargv[..], old(first), old(trace) + [EndMark], optind)
        && orig == nargv[..] && first == optind && trace == [] && place == ""
      ensures !mark ==>
        && orig == old(orig) && first == old(first) && trace == old(trace) && optind == old(optind)
        && place == orig[optind][1..] && nargv[..] == old(nargv[..])
    {
      hide Layout, StablePartition, Grammar.Walk;
      LayoutFacts(orig, nargv[..], first, trace, optind, nonoptStart, nonoptEnd);
      if nonoptStart != -1 && nonoptEnd == -1 {
        StartOptions(orig, nargv[..], first, trace, optind, nonoptStart);
        nonoptEnd := optind;
      }
      place := nargv[optind][1..];
      if place == "-" {
        EndAtMark(nargv);
        return true;
      }
      return false;
    }

    /** Where the scan ends, and after which steps. */
    ghost predicate EndsAs(nargv: array<Word>, ahead: Fate, begun: seq<Word>, from: nat, steps: seq<Step>)
      reads this, nargv
    {
      match ahead.end
      case Over =>
        && StablePartition(begun, nargv[..], from, steps, optind)
        && orig == nargv[..] && first == optind && trace == []
      case AtWord => StopsAtWord(nargv) && orig == nargv[..] == begun && first == from && trace == steps
      case AtStray => false
    }

    /** A non-option that does not end the scan: returned in order, or skipped. */
    method PassWord(nargv: array<Word>) returns (next: Next)
      requires Valid(nargv) && !optreset && place == "" && !Mode().Stopping?
      requires optind < nargv.Length && !IsOption(nargv[optind])
      modifies this, nargv
      ensures Valid(nargv) && !optreset && place == "" && orig == old(orig) && first == old(first)
      ensures old(optind) < optind <= nargv.Length
      ensures next == if inOrder then Return(1) else Again
      ensures old(Course(nargv)) == Course(nargv) && old(Ahead(nargv)).end == Ahead(nargv).end
      ensures old(Ahead(nargv)).codes == (if inOrder then [1] else []) + Ahead(nargv).codes
    {
      hide Layout, Grammar.Walk;
      LayoutFacts(orig, nargv[..], first, trace, optind, nonoptStart, nonoptEnd);
      grammar.WalkWord(orig, optind, Mode());
      if inOrder {
        TakeStep(orig, nargv[..], first, trace, optind, nonoptStart, nonoptEnd, InOrder);
        optind := optind + 1;
        trace := trace + [InOrder];
        return Return(1);
      }
      SkipWord(nargv);
      return Again;
    }

    /** The branch that updates the scanning pointer: what is at argv[optind]? */
    method ReadWord(nargv: array<Word>) returns (next: Next, ghost steps: seq<Step>)
      requires Valid(nargv) && Text() == ""
      modifies this, nargv
      ensures Valid(nargv) && !optreset && optind <= nargv.Length
      ensures next == Return(-1) ==>
        var ahead := old(Ahead(nargv));
        && ahead.codes == [] && steps == old(trace) + ahead.steps
        && EndsAs(nargv, ahead, old(orig), old(first), steps)
      ensures next != Return(-1) ==>
        && orig == old(orig) && first == old(first) && trace == steps
        && old(Course(nargv)) == Course(nargv) && old(Ahead(nargv)).end == Ahead(nargv).end
        && old(Ahead(nargv)).codes == (if next.Return? then [next.code] else []) + Ahead(nargv).codes
      ensures next.Return? ==> next.code == 1 || next.code == -1
      ensures next.Again? ==> place == "" && old(optind) < optind
      ensures next.ScanOption? ==>
        nargv[..] == old(nargv[..]) && place != "" && old(optind) == optind && !grammar.Stray(place)
      ensures Steady(nargv)
    {
      hide Layout, StablePartition, Grammar.Walk;
      LayoutFacts(orig, nargv[..], first, trace, optind, nonoptStart, nonoptEnd);
      grammar.WalkWord(orig, optind, Mode());
      optreset, place := false, "";
      steps := trace;
      if optind >= nargv.Length {
        EndScan(nargv);
        return Return(-1), steps;
      }
      if !IsOption(nargv[optind]) {
        if !inOrder && !permuting {
          return Return(-1), steps;
        }
        next := PassWord(nargv);
        return next, trace;
      }
      var mark := BeginOption(nargv);
      if mark {
        return Return(-1), steps + [EndMark];
      }
      next := ScanOption;
    }

    /** The option branch. */
    method TakeOption(nargv: array<Word>) returns (code: int)
      requires Valid(nargv) && Text() != "" && Steady(nargv)
      modifies this
      ensures Valid(nargv) && !optreset && orig == old(orig) && first == old(first)
      ensures Steady(nargv)
      ensures old(grammar.Stray(place)) ==>
        && code == (if grammar.long.NoLong? then -1 else grammar.BadArg()) && place == "" && trace == old(trace)
        && optind == old(optind) && nonoptStart == old(nonoptStart) && nonoptEnd == old(nonoptEnd)
      ensures !old(grammar.Stray(place)) ==>
        code != -1 && Answers(nargv, code, old(Ahead(nargv)), old(Course(nargv)))
    {
      hide Layout, Grammar.Walk, Grammar.Option;
      LayoutFacts(orig, nargv[..], first, trace, optind, nonoptStart, nonoptEnd);
      grammar.OptionReads(nargv[..], orig, optind, place);
      grammar.WalkOption(orig, optind, place, Mode());
      var o := grammar.Option(nargv[..], optind, place);
      if !grammar.Stray(place) {
        TakeStep(orig, nargv[..], first, trace, optind, nonoptStart, nonoptEnd, Take(o.words));
        trace := trace + [Take(o.words)];
      }
      optind := optind + o.words;
      place := o.rest;
      return o.code;
    }

    /** One call. It returns what the scan answers next, and takes the steps up to there; when that is
        the end, the next call begins another scan. A stray '-' leaves argv and optind as they are. */
    method GetoptInternal(nargv: array<Word>) returns (code: int, ghost steps: seq<Step>)
      requires Valid(nargv) && Steady(nargv)
      modifies this, nargv
      ensures Valid(nargv) && !optreset && Steady(nargv)
      ensures code != -1 || old(grammar.Stray(Text())) ==> orig == old(orig) && first == old(first) && trace == steps
      ensures old(grammar.Stray(Text())) ==>
        && code == (if grammar.long.NoLong? then -1 else grammar.BadArg()) && steps == old(trace)
        && place == "" && optind == old(optind) < nargv.Length && nargv[..] == old(nargv[..])
        && IsOption(nargv[optind]) && nargv[optind] != "--" && Last(nargv[optind]) == '-'
      ensures !old(grammar.Stray(Text())) ==>
        var ahead := old(Ahead(nargv));
        if code == -1 then
          ahead.codes == [] && steps == old(Course(nargv)) && EndsAs(nargv, ahead, old(orig), old(first), steps)
        else Answers(nargv, code, ahead, old(Course(nargv)))
    {
      hide Layout, StablePartition;
      ghost var ahead, course, stray := Ahead(nargv), Course(nargv), grammar.Stray(Text());
      while optreset || place == ""
        invariant Valid(nargv) && orig == old(orig) && first == old(first)
        invariant Steady(nargv) && Ahead(nargv) == Fate(ahead.end, Ahead(nargv).steps, ahead.codes)
        invariant Course(nargv) == course
        invariant grammar.Stray(Text()) == stray && (stray ==> unchanged(this, nargv))
        decreases nargv.Length - optind, optreset || place == ""
      {
        var next;
        next, steps := ReadWord(nargv);
        if next.Return? {
          return next.code, steps;
        }
      }
      LayoutFacts(orig, nargv[..], first, trace, optind, nonoptStart, nonoptEnd);
      code := TakeOption(nargv);
      steps := trace;
    }
  }

  /** Where a scan without long options ends at a stray '-': inside an option word that ends in '-', the
      words scanned not yet rearranged any further. */
  ghost predicate StopsInside(orig: seq<Word>, cur: seq<Word>, trace: seq<Step>, optind: int, ns: int, ne: int) {
    && Layout(orig, cur, 1, trace, optind, ns, ne)
    && 0 <= optind < |orig| == |cur|
    && IsOption(cur[optind]) && cur[optind] != "--" && Last(cur[optind]) == '-'
  }

  lemma StoppedInside(orig: seq<Word>, cur: seq<Word>, trace: seq<Step>, optind: int, ns: int, ne: int)
    requires Layout(orig, cur, 1, trace, optind, ns, ne) && 0 <= optind < |orig| == |cur|
    requires IsOption(cur[optind]) && cur[optind] != "--" && Last(cur[optind]) == '-'
    ensures StopsInside(orig, cur, trace, optind, ns, ne)
  {
  }

  /** The codes returned so far and those ahead are those of the scan, until a stray '-' with long options
      has been met, where it goes round in circles. */
  ghost predicate OnCourse(codes: seq<int>, ahead: Fate, course: seq<Step>, fate: Fate, long: LongOptions) {
    || (codes + ahead.codes == fate.codes && ahead.end == fate.end && course == fate.steps)
    || (ahead.end.AtStray? && fate.end.AtStray? && long.Long? && fate.codes < codes)
  }

  lemma CourseBegins(fate: Fate, course: seq<Step>, long: LongOptions)
    requires course == fate.steps
    ensures OnCourse([], fate, course, fate, long)
  {
    assert [] + fate.codes == fate.codes;
  }

  lemma CourseGoesOn(codes: seq<int>, ahead: Fate, course: seq<Step>, code: int, ahead': Fate, course': seq<Step>,
      fate: Fate, long: LongOptions, stray: bool)
    requires OnCourse(codes, ahead, course, fate, long)
    requires if stray then ahead.codes == [] && ahead.end.AtStray? && ahead'.end.AtStray? && long.Long?
             else ahead.codes == [code] + ahead'.codes && ahead.end == ahead'.end && course == course'
    ensures OnCourse(codes + [code], ahead', course', fate, long)
  {
    assert codes + ([code] + ahead'.codes) == codes + [code] + ahead'.codes;
    if fate.codes < codes { assert (codes + [code])[..|fate.codes|] == codes[..|fate.codes|]; }
  }

  lemma CourseEnds(codes: seq<int>, ahead: Fate, course: seq<Step>, fate: Fate, long: LongOptions)
    requires OnCourse(codes, ahead, course, fate, long) && ahead.codes == [] && (ahead.end.AtStray? ==> long.NoLong?)
    ensures codes == fate.codes && ahead.end == fate.end && course == fate.steps
  {
  }

  lemma TooFewCalls(codes: seq<int>, ahead: Fate, course: seq<Step>, fate: Fate, long: LongOptions)
    requires OnCourse(codes, ahead, course, fate, long)
    ensures |fate.codes| < |codes| ==> fate.end.AtStray? && long.Long?
    ensures forall k :: 0 <= k < |codes| && k < |fate.codes| ==> codes[k] == fate.codes[k]
  {
    forall k | 0 <= k < |codes| && k < |fate.codes| ensures codes[k] == fate.codes[k] {
      assert fate.codes == codes + ahead.codes || codes[..|fate.codes|] == fate.codes;
    }
  }

  /** What argv and optind are when a scan of `begun` has ended. */
  ghost predicate Ended(end: End, g: Getopt, nargv: array<Word>, begun: seq<Word>, trace: seq<Step>)
    reads g, nargv
  {
    match end
    case Over => StablePartition(begun, nargv[..], 1, trace, g.optind)
    case AtStray => StopsInside(begun, nargv[..], trace, g.optind, g.nonoptStart, g.nonoptEnd)
    case AtWord => nargv[..] == begun && g.StopsAtWord(nargv) && g.optind == Reach(1, trace)
  }

  /** One of the caller's calls. */
  method NextOption(g: Getopt, nargv: array<Word>, ghost codes: seq<int>, ghost fate: Fate)
    returns (code: int, ghost trace: seq<Step>)
    requires g.Valid(nargv) && g.Steady(nargv) && g.first == 1
    requires OnCourse(codes, g.Ahead(nargv), g.Course(nargv), fate, g.grammar.long)
    modifies g, nargv
    ensures g.Valid(nargv) && g.Steady(nargv)
    ensures code == -1 ==>
      codes == fate.codes && trace == fate.steps && (fate.end.AtStray? ==> g.grammar.long.NoLong?)
      && Ended(fate.end, g, nargv, old(g.orig), trace)
    ensures code != -1 ==>
      g.orig == old(g.orig) && g.first == 1
      && OnCourse(codes + [code], g.Ahead(nargv), g.Course(nargv), fate, g.grammar.long)
  {
    hide Layout, StablePartition, Grammar.Walk, OnCourse, StopsInside, Reach;
    ghost var ahead, course, stray := g.Ahead(nargv), g.Course(nargv), g.grammar.Stray(g.Text());
    LayoutFacts(g.orig, nargv[..], g.first, g.trace, g.optind, g.nonoptStart, g.nonoptEnd);
    if stray { g.grammar.WalkOption(g.orig, g.optind, g.Text(), g.Mode()); }
    code, trace := g.GetoptInternal(nargv);
    if code == -1 {
      CourseEnds(codes, ahead, course, fate, g.grammar.long);
      LayoutFacts(g.orig, nargv[..], g.first, g.trace, g.optind, g.nonoptStart, g.nonoptEnd);
      if stray { StoppedInside(g.orig, nargv[..], trace, g.optind, g.nonoptStart, g.nonoptEnd); }
    } else {
      CourseGoesOn(codes, ahead, course, code, g.Ahead(nargv), g.Course(nargv), fate, g.grammar.long, stray);
    }
  }

  /** A caller that asks for options until -1, giving up after `limit` calls. It is told the codes that
      the walk over argv finds. In permute mode the scan ends with a stable partition exactly when it
      meets no stray '-'; at one it ends at once without long options, and never with them. */
  method Scan(nargv: array<Word>, opts: Word, long: LongOptions, longOnly: bool, flagPermute: bool,
      posixlyCorrect: bool, limit: nat)
    returns (ended: bool, g: Getopt, codes: seq<int>, ghost trace: seq<Step>)
    requires nargv.Length >= 1
    modifies nargv
    ensures fresh(g) && g.inOrder == (At(opts, 0) == '-')
    ensures g.permuting == (flagPermute && (g.inOrder || !(posixlyCorrect || At(opts, 0) == '+')))
    ensures g.grammar == Grammar(if At(opts, 0) in {'+', '-'} then opts[1..] else opts, long, longOnly)
    ensures var fate := g.grammar.Walk(old(nargv[..]), 1, "", g.Mode());
      && (ended <==> |fate.codes| < limit && !(fate.end.AtStray? && long.Long?))
      && (ended ==> codes == fate.codes + [-1] && trace == fate.steps)
      && (ended ==> Ended(fate.end, g, nargv, old(nargv[..]), trace))
      && (!ended ==> |codes| == limit && forall k :: 0 <= k < |codes| && k < |fate.codes| ==> codes[k] == fate.codes[k])
  {
    hide Layout, StablePartition, Grammar.Walk, OnCourse, StopsInside, Reach, Ended;
    g := new Getopt(opts, long, longOnly, flagPermute, posixlyCorrect, nargv);
    trace, codes := [], [];
    ended := false;
    ghost var fate := g.Ahead(nargv);
    CourseBegins(fate, g.Course(nargv), long);
    for i := 0 to limit
      invariant fresh(g) && g.Valid(nargv) && g.Steady(nargv) && |codes| == i
      invariant g.orig == old(nargv[..]) && g.first == 1
      invariant OnCourse(codes, g.Ahead(nargv), g.Course(nargv), fate, long)
    {
      var code;
      code, trace := NextOption(g, nargv, codes, fate);
      if code == -1 {
        return true, g, codes + [-1], trace;
      }
      codes := codes + [code];
    }
    TooFewCalls(codes, g.Ahead(nargv), g.Course(nargv), fate, long);
  }

  // ----- Options and their arguments -----

  lemma {:induction false} ReachSplit(first: nat, a: seq<Step>, b: seq<Step>)
    ensures Reach(first, a + b) == Reach(Reach(first, a), b)
  {
    if b == [] {
      assert a + b == a;
    } else {
      ReachSplit(first, a, b[..|b| - 1]);
      assert (a + b)[..|a + b| - 1] == a + b[..|b| - 1];
    }
  }

  ghost predicate Suffix(t: Word, w: Word) { |t| <= |w| && w[|w| - |t|..] == t }

  /** So many words are what the option branch takes that reads some end of the word at `at`. */
  ghost predicate TakenAt(g: Grammar, argv: seq<Word>, at: nat, words: nat) {
    at < |argv|
    && exists t: Word :: t != "" && Suffix(t, argv[at]) && !g.Stray(t) && words == g.Option(argv, at, t).words
  }

  lemma {:induction false} TakesAreOptions(g: Grammar, argv: seq<Word>, i: nat, text: Word, mode: Mode, j: nat)
    requires i <= |argv| && (text != "" ==> i < |argv| && Suffix(text, argv[i]))
    requires var steps := g.Walk(argv, i, text, mode).steps; j < |steps| && steps[j].Take?
    ensures var steps := g.Walk(argv, i, text, mode).steps;
      TakenAt(g, argv, Reach(i, steps[..j]), steps[j].words)
    decreases |argv| - i, text == "", |text|
  {
    hide Grammar.Walk, Grammar.Option, Grammar.Stray, TakenAt, Suffix, Reach;
    var steps := g.Walk(argv, i, text, mode).steps;
    if text == "" {
      g.WalkWord(argv, i, mode);
      if IsOption(argv[i]) {
        SuffixRest(argv[i], argv[i]);
        TakesAreOptions(g, argv, i, argv[i][1..], mode, j);
      } else {
        NextStep(i, steps, j);
        TakesAreOptions(g, argv, i + 1, "", mode, j - 1);
      }
    } else {
      g.WalkOption(argv, i, text, mode);
      var o := g.Option(argv, i, text);
      if j == 0 {
        TakenHere(g, argv, i, text);
        assert steps[..0] == [];
      } else {
        SuffixRest(text, argv[i]);
        NextStep(i, steps, j);
        TakesAreOptions(g, argv, i + o.words, o.rest, mode, j - 1);
      }
    }
  }

  lemma SuffixRest(t: Word, w: Word)
    requires t != "" && (Suffix(t, w) || t == w)
    ensures Suffix(t[1..], w)
  {
    assert w[|w| - |t|..][1..] == w[|w| - |t| + 1..];
  }

  lemma TakenHere(g: Grammar, argv: seq<Word>, i: nat, text: Word)
    requires i < |argv| && text != "" && Suffix(text, argv[i]) && !g.Stray(text)
    ensures Reach(i, []) == i && TakenAt(g, argv, i, g.Option(argv, i, text).words)
  {
    hide Grammar.Option;
  }

  lemma NextStep(i: nat, steps: seq<Step>, j: nat)
    requires 0 < j < |steps|
    ensures steps[j] == steps[1..][j - 1]
    ensures Reach(i, steps[..j]) == Reach(i + steps[0].Width(), steps[1..][..j - 1])
  {
    ReachSplit(i, [steps[0]], steps[1..][..j - 1]);
    assert [steps[0]] + steps[1..][..j - 1] == steps[..j];
    assert Reach(i, [steps[0]]) == i + steps[0].Width() by { assert [steps[0]][..0] == []; }
  }

  lemma {:induction false} WordsBefore(orig: seq<Word>, first: nat, trace: seq<Step>, j: nat)
    requires Traces(orig, first, trace) && j < |trace| && !trace[j].Skip?
    ensures Traces(orig, first, trace[..j]) && StepFits(orig, Reach(first, trace[..j]), trace[j])
    ensures var at := Reach(first, trace[..j]);
      Words(orig, first, trace[..j], false) + orig[at..at + trace[j].Width()] <= Words(orig, first, trace, false)
  {
    var before := trace[..|trace| - 1];
    if j < |trace| - 1 {
      WordsBefore(orig, first, before, j);
      assert before[..j] == trace[..j];
    }
  }

  /** The words that an option takes stay together, in front of optind: its argument is not among the
      skipped words, and stands directly behind the option word. How many words that are is what the
      option branch says. */
  lemma ArgumentsFollow(g: Grammar, argv: seq<Word>, cur: seq<Word>, optind: int, mode: Mode, j: nat)
    requires |argv| >= 1
    requires var steps := g.Walk(argv, 1, "", mode).steps;
      StablePartition(argv, cur, 1, steps, optind) && j < |steps| && steps[j].Take?
    ensures var steps := g.Walk(argv, 1, "", mode).steps;
      var at, k := Reach(1, steps[..j]), steps[j].words;
      && TakenAt(g, argv, at, k) && at + k <= |argv|
      && Traces(argv, 1, steps[..j])
      && var to := 1 + |Words(argv, 1, steps[..j], false)|;
         0 <= to && to + k <= optind <= |cur| && cur[to..to + k] == argv[at..at + k]
  {
    hide Grammar.Walk, Grammar.Option, Grammar.Stray, Words, Traces, Reach, TakenAt;
    var steps := g.Walk(argv, 1, "", mode).steps;
    TakesAreOptions(g, argv, 1, "", mode, j);
    WordsBefore(argv, 1, steps, j);
    WordCount(argv, 1, steps);
    var opts := Words(argv, 1, steps, false);
    var to, k, at := 1 + |Words(argv, 1, steps[..j], false)|, steps[j].words, Reach(1, steps[..j]);
    assert argv[at..at + k] == opts[to - 1..to - 1 + k];
    assert cur[1..1 + |opts|] == opts;
    assert cur[to..to + k] == cur[1..1 + |opts|][to - 1..to - 1 + k];
  }

  /** A word "-c" of a letter with a required argument takes the word behind it, whatever that is. */
  lemma SeparateArgument(g: Grammar, argv: seq<Word>, i: nat, p: Word, c: char, q: Word, mode: Mode)
    requires i + 1 < |argv| && argv[i] == ['-', c] && g.options == p + [c] + (":" + q) && c !in p
    requires (q != "" ==> q[0] != ':') && c != ':' && c != '-' && !(g.long.Long? && g.longOnly)
    ensures g.Walk(argv, i, "", mode) == g.Walk(argv, i + 2, "", mode).After(Take(2)).Returning(c as int)
  {
    hide Grammar.Walk, Grammar.Option;
    g.WalkWord(argv, i, mode);
    assert argv[i][1..] == [c] == [c] + "";
    g.DeclaredLetter(argv, i, p, c, ":" + q, "");
    g.WalkOption(argv, i, [c], mode);
  }

  const SEPARATE: seq<Word> := ["prog", "x", "-o", "file"]

  lemma SeparateWalk()
    ensures Grammar("o:", NoLong, false).Walk(SEPARATE, 1, "", Permuting)
      == Fate(Over, [Skip, Take(2)], ['o' as int])
  {
    hide Grammar.Walk;
    var g := Grammar("o:", NoLong, false);
    assert g.options == "" + ['o'] + (":" + "");
    g.WalkWord(SEPARATE, 1, Permuting);
    SeparateArgument(g, SEPARATE, 2, "", 'o', "", Permuting);
    g.WalkWord(SEPARATE, 4, Permuting);
  }

  lemma SeparateLeaves(cur: seq<Word>, optind: int)
    requires StablePartition(SEPARATE, cur, 1, [Skip, Take(2)], optind)
    ensures cur == ["prog", "-o", "file", "x"] && optind == 3
  {
    var steps: seq<Step> := [Skip, Take(2)];
    assert steps[..1] == [Skip] && [Skip][..0] == [];
    assert SEPARATE[1..2] == ["x"] && SEPARATE[2..4] == ["-o", "file"];
  }

  /** The argument of -o moves with it in front of x, which is where optind then points. */
  method SeparateScan() returns (ended: bool, argv: array<Word>, optind: int)
    ensures ended && argv[..] == ["prog", "-o", "file", "x"] && optind == 3
  {
    argv := new Word[4](i requires 0 <= i < 4 => SEPARATE[i]);
    assert argv[..] == SEPARATE;
    var g, codes;
    ghost var trace;
    ended, g, codes, trace := Scan(argv, "o:", NoLong, false, true, false, 2);
    SeparateWalk();
    SeparateLeaves(argv[..], g.optind);
    optind := g.optind;
  }

  // ----- A scan that a stray '-' cuts short -----

  const STRAY: seq<Word> := ["prog", "x", "-a-"]

  lemma StrayCluster()
    ensures var g := Grammar("a", NoLong, false);
      && STRAY[2][1..] == "a-" && g.Option(STRAY, 2, "a-") == Outcome('a' as int, 0, "-")
      && !g.Stray("a-") && g.Stray("-")
  {
    assert "a-"[1..] == "-";
  }

  /** Without long options, the option string "a" and this argv: the walk skips x, takes a, and comes to
      a stray '-' in its second call. */
  lemma StrayWalk()
    ensures Grammar("a", NoLong, false).Walk(STRAY, 1, "", Permuting)
      == Fate(AtStray, [Skip, Take(0)], ['a' as int])
  {
    hide Grammar.Walk, Grammar.Option, Grammar.Stray;
    var g := Grammar("a", NoLong, false);
    StrayCluster();
    g.WalkWord(STRAY, 1, Permuting);
    g.WalkWord(STRAY, 2, Permuting);
    g.WalkOption(STRAY, 2, "a-", Permuting);
    g.WalkOption(STRAY, 2, "-", Permuting);
  }

  lemma ArrangedParts<T>(before: seq<T>, opts: seq<T>, front: nat, non: seq<T>, rest: seq<T>)
    requires front <= |opts|
    ensures var cur := Arranged(before, opts, front, non, rest);
      && multiset(cur) == multiset(before) + multiset(opts) + multiset(non) + multiset(rest)
      && |before| <= |cur| && cur[..|before|] == before
  {
    assert opts == opts[..front] + opts[front..];
  }

  lemma LayoutKeepsWords(orig: seq<Word>, cur: seq<Word>, first: nat, trace: seq<Step>, optind: int, ns: int, ne: int)
    requires Layout(orig, cur, first, trace, optind, ns, ne)
    ensures multiset(cur) == multiset(orig) && |cur| == |orig| && first <= |orig| && cur[..first] == orig[..first]
  {
    hide Words, Traces, Reach, Arranged;
    WordCount(orig, first, trace);
    WordsAreScanned(orig, first, trace);
    var opts, non := Words(orig, first, trace, false), Words(orig, first, trace, true);
    ArrangedParts(orig[..first], opts, if ne == -1 then |opts| else ns - first, non, orig[optind..]);
    assert orig == orig[..first] + orig[first..optind] + orig[optind..];
  }

  lemma Cancelled<T>(x: T, y: T, m: multiset<T>)
    requires multiset{x} + m == multiset{y} + m
    ensures x == y
  {
    assert (multiset{x} + m)[x] == 1 + m[x];
    assert (multiset{y} + m)[x] == multiset{y}[x] + m[x];
  }

  lemma SameThree(a: seq<Word>, b: seq<Word>)
    requires |a| == |b| == 3 && multiset(a) == multiset(b) && a[0] == b[0] && a[2] == b[2]
    ensures a == b
  {
    assert a == [a[0], a[1], a[2]] && b == [b[0], b[1], b[2]];
    Cancelled(a[1], b[1], multiset{a[0], a[2]});
  }

  /** The scan has then returned -1 with x still in front of the option word, and optind at that word. */
  lemma StrayLeaves(cur: seq<Word>, trace: seq<Step>, optind: int, ns: int, ne: int)
    requires StopsInside(STRAY, cur, trace, optind, ns, ne)
    ensures cur == STRAY && optind == 2
  {
    hide Layout;
    LayoutKeepsWords(STRAY, cur, 1, trace, optind, ns, ne);
    LayoutFacts(STRAY, cur, 1, trace, optind, ns, ne);
    assert cur[0] == cur[..1][0] == STRAY[..1][0];
    assert cur[optind] == STRAY[optind];
    SameThree(cur, STRAY);
  }

  /** And that is no stable partition, whatever words one takes for options. */
  lemma StrayIsNoPartition(steps: seq<Step>)
    ensures !StablePartition(STRAY, STRAY, 1, steps, 2)
  {
    hide Words, Partitioned;
    if StablePartition(STRAY, STRAY, 1, steps, 2) {
      PartitionKeepsWords(STRAY, STRAY, 1, steps, 2);
      assert false;
    }
  }

  method StrayScan() returns (ended: bool, argv: array<Word>, optind: int)
    ensures ended && argv[..] == STRAY && optind == 2
  {
    argv := new Word[3](i requires 0 <= i < 3 => STRAY[i]);
    assert argv[..] == STRAY;
    var g, codes;
    ghost var trace;
    ended, g, codes, trace := Scan(argv, "a", NoLong, false, true, false, 2);
    StrayWalk();
    StrayLeaves(argv[..], trace, g.optind, g.nonoptStart, g.nonoptEnd);
    optind := g.optind;
  }

  // ----- What a stable partition says -----

  ghost predicate AreScanned(orig: seq<Word>, first: nat, trace: seq<Step>)
    requires Traces(orig, first, trace)
  {
    && first <= Reach(first, trace) <= |orig|
    && multiset(orig[first..Reach(first, trace)]) ==
         multiset(Words(orig, first, trace, false)) + multiset(Words(orig, first, trace, true))
  }

  lemma {:induction false} WordsAreScanned(orig: seq<Word>, first: nat, trace: seq<Step>)
    requires Traces(orig, first, trace)
    ensures AreScanned(orig, first, trace)
  {
    if trace == [] {
      assert orig[first..first] == [];
    } else {
      var before, step := trace[..|trace| - 1], trace[|trace| - 1];
      assert trace == before + [step];
      WordsAreScanned(orig, first, before);
      hide AreScanned;
      StepIsScanned(orig, first, before, step);
    }
  }

  lemma StepIsScanned(orig: seq<Word>, first: nat, trace: seq<Step>, step: Step)
    requires Traces(orig, first, trace) && AreScanned(orig, first, trace)
    requires trace != [] ==> !trace[|trace| - 1].EndMark?
    requires StepFits(orig, Reach(first, trace), step)
    ensures Traces(orig, first, trace + [step]) && AreScanned(orig, first, trace + [step])
  {
    hide Words, Traces, Reach;
    StepWords(orig, first, trace, step);
    var at, k := Reach(first, trace), step.Width();
    StepInside(orig, at, step);
    var o, n := Words(orig, first, trace, false), Words(orig, first, trace, true);
    ScannedMore(orig, first, at, k, if step.Skip? then n else o, if step.Skip? then o else n);
  }

  lemma StepInside(orig: seq<Word>, at: nat, step: Step)
    requires StepFits(orig, at, step)
    ensures at + step.Width() <= |orig|
  {
  }

  lemma ScannedMore<T>(s: seq<T>, i: nat, j: nat, k: nat, some: seq<T>, others: seq<T>)
    requires i <= j <= j + k <= |s|
    requires multiset(s[i..j]) == multiset(some) + multiset(others)
    ensures multiset(s[i..j + k]) == multiset(some + s[j..j + k]) + multiset(others)
  {
    assert s[i..j + k] == s[i..j] + s[j..j + k];
  }

  lemma {:induction false} SkippedAreNonOptions(orig: seq<Word>, first: nat, trace: seq<Step>)
    requires Traces(orig, first, trace)
    ensures forall w :: w in Words(orig, first, trace, true) ==> !IsOption(w)
  {
    if trace != [] {
      var before, step := trace[..|trace| - 1], trace[|trace| - 1];
      SkippedAreNonOptions(orig, first, before);
      if step.Skip? {
        var at := Reach(first, before);
        assert orig[at..at + 1] == [orig[at]];
      }
    }
  }

  lemma PartitionedParts<T>(before: seq<T>, opts: seq<T>, non: seq<T>, rest: seq<T>, first: nat, optind: nat, end: nat)
    requires first == |before| && optind == first + |opts| && end == optind + |non|
    ensures var cur := Partitioned(before, opts, non, rest);
      && |cur| == end + |rest|
      && multiset(cur) == multiset(before) + multiset(opts) + multiset(non) + multiset(rest)
      && cur[..first] == before && cur[optind..end] == non && cur[end..] == rest
  {
  }

  /** Nothing is lost or invented, the words before the scan and after its end keep their places, and
      from optind up to that end no word is an option. */
  lemma PartitionKeepsWords(orig: seq<Word>, cur: seq<Word>, first: nat, trace: seq<Step>, optind: int)
    requires StablePartition(orig, cur, first, trace, optind)
    ensures multiset(cur) == multiset(orig) && |cur| == |orig|
    ensures first <= optind <= Reach(first, trace) <= |orig|
    ensures cur[..first] == orig[..first] && cur[Reach(first, trace)..] == orig[Reach(first, trace)..]
    ensures forall i :: optind <= i < Reach(first, trace) ==> !IsOption(cur[i])
  {
    hide Partitioned, Words, Traces, Reach, IsOption;
    WordsAreScanned(orig, first, trace);
    WordCount(orig, first, trace);
    SkippedAreNonOptions(orig, first, trace);
    var end := Reach(first, trace);
    var opts, non := Words(orig, first, trace, false), Words(orig, first, trace, true);
    PartitionedParts(orig[..first], opts, non, orig[end..], first, optind, end);
    assert multiset(orig) == multiset(orig[..first]) + multiset(orig[first..end]) + multiset(orig[end..]) by {
      assert orig == orig[..first] + orig[first..end] + orig[end..];
    }
    forall i | optind <= i < end ensures !IsOption(cur[i]) {
      assert cur[i] == cur[optind..end][i - optind];
    }
  }
}
