// The option parser with hidden state (eloop/common.c, getopt).
module Getopt {
  import opened Bytes

  const NULCHAR: char := '\0'

  type CString = s: string | NULCHAR !in s witness ""

  /** Indexing a C string, the closing NUL included. */
  function CharAt(s: CString, i: nat): char
    requires i <= |s|
  {
    if i < |s| then s[i] else NULCHAR
  }

  /** os_strchr: where `c` first occurs, or |s|. */
  function Find(s: CString, c: char): (i: nat)
    ensures i <= |s|
    ensures i < |s| ==> s[i] == c
    ensures c in s ==> i < |s|
  {
    if s == "" || s[0] == c then 0 else 1 + Find(s[1..], c)
  }

  predicate Known(opts: CString, c: char) {
    c in opts && c != ':'
  }

  predicate TakesArg(opts: CString, c: char) {
    Known(opts, c) && CharAt(opts, Find(opts, c) + 1) == ':'
  }

  /** What one call tells its caller. `Unknown` and `Missing` both return '?'. */
  datatype Event = End | Opt(c: char) | OptArg(c: char, arg: string) | Unknown(c: char) | Missing(c: char)

  datatype State = State(ind: nat, chr: nat)

  /** The option characters of `argv[ind]` are being read, or a new argument is to be looked at. */
  predicate Ok(argv: seq<CString>, s: State) {
    s.chr >= 1 && (s.chr > 1 ==> s.ind < |argv| && s.chr < |argv[s.ind]|)
  }

  /** The state after one more character of a cluster. */
  function Advance(argv: seq<CString>, s: State): (t: State)
    requires s.ind < |argv| && 1 <= s.chr < |argv[s.ind]|
    ensures Ok(argv, t)
  {
    if s.chr + 1 == |argv[s.ind]| then State(s.ind + 1, 1) else State(s.ind, s.chr + 1)
  }

  /** One call of the parser. With an argument-taking option the hidden index falls back to 1. */
  function Step(argv: seq<CString>, opts: CString, s: State): (r: (State, Event))
    requires Ok(argv, s)
    ensures Ok(argv, r.0)
  {
    if s.chr == 1 && s.ind >= |argv| then (s, End)
    else if s.chr == 1 && (CharAt(argv[s.ind], 0) != '-' || CharAt(argv[s.ind], 1) == NULCHAR) then (s, End)
    else if argv[s.ind] == "--" then (State(s.ind + 1, s.chr), End)
    else
      var w := argv[s.ind];
      var c := w[s.chr];
      if !Known(opts, c) then (Advance(argv, s), Unknown(c))
      else if !TakesArg(opts, c) then (Advance(argv, s), Opt(c))
      else if |w| > 2 then (State(s.ind + 1, 1), OptArg(c, w[2..]))
      else if s.ind + 1 >= |argv| then (State(s.ind + 1, 1), Missing(c))
      else (State(s.ind + 2, 1), OptArg(c, argv[s.ind + 1]))
  }

  /** Characters not yet read, plus one for each argument. */
  function Remaining(argv: seq<CString>, i: nat): nat
    decreases |argv| - i
  {
    if i >= |argv| then 0 else |argv[i]| + 1 + Remaining(argv, i + 1)
  }

  function Measure(argv: seq<CString>, s: State): int {
    Remaining(argv, s.ind) - s.chr
  }

  /** Every call that reports something makes progress, so repeated calls reach the end of any argv. */
  lemma Progress(argv: seq<CString>, opts: CString, s: State)
    requires Ok(argv, s) && Step(argv, opts, s).1 != End
    ensures -1 <= Measure(argv, Step(argv, opts, s).0) < Measure(argv, s)
  {
    assert Remaining(argv, s.ind) == |argv[s.ind]| + 1 + Remaining(argv, s.ind + 1);
    if s.ind + 1 < |argv| {
      assert Remaining(argv, s.ind + 1) == |argv[s.ind + 1]| + 1 + Remaining(argv, s.ind + 2);
    }
  }

  /** What the caller sees of one call: the result and the public index after it. */
  datatype Seen = Seen(event: Event, ind: nat)

  /** All calls up to and including the one that returns EOF. */
  function Calls(argv: seq<CString>, opts: CString, s: State): seq<Seen>
    requires Ok(argv, s)
    decreases Measure(argv, s) + 1
  {
    var (t, e) := Step(argv, opts, s);
    if e == End then [Seen(End, t.ind)]
    else
      Progress(argv, opts, s);
      [Seen(e, t.ind)] + Calls(argv, opts, t)
  }

  // ---------------------------------------------------------------- the reference

  /** The documented convention, by recursion over the arguments: options end with the arguments, at a
      word that does not start with a dash, at a lone dash, and after a double one. */
  function Parse(argv: seq<CString>, opts: CString, i: nat): seq<Seen>
    decreases |argv| - i, 1, 0
  {
    if i >= |argv| || argv[i] == "" || argv[i][0] != '-' || argv[i] == "-" then [Seen(End, i)]
    else if argv[i] == "--" then [Seen(End, i + 1)]
    else ParseCluster(argv, opts, i, 1)
  }

  /** The characters of argument `i` from position `p`. An option's argument is the rest of its own
      word or, when that is empty, the next word. */
  function ParseCluster(argv: seq<CString>, opts: CString, i: nat, p: nat): seq<Seen>
    requires i < |argv| && p <= |argv[i]|
    decreases |argv| - i, 0, |argv[i]| - p
  {
    var w := argv[i];
    if p == |w| then Parse(argv, opts, i + 1)
    else
      var c := w[p];
      var after := if p + 1 == |w| then i + 1 else i;
      if !Known(opts, c) then [Seen(Unknown(c), after)] + ParseCluster(argv, opts, i, p + 1)
      else if !TakesArg(opts, c) then [Seen(Opt(c), after)] + ParseCluster(argv, opts, i, p + 1)
      else if p + 1 < |w| then [Seen(OptArg(c, w[p + 1..]), i + 1)] + Parse(argv, opts, i + 1)
      else if i + 1 >= |argv| then [Seen(Missing(c), i + 1)] + Parse(argv, opts, i + 1)
      else [Seen(OptArg(c, argv[i + 1]), i + 2)] + Parse(argv, opts, i + 2)
  }

  /** Options with arguments stand first in every cluster that the reference reads. */
  predicate Regular(argv: seq<CString>, opts: CString, i: nat)
    decreases |argv| - i, 1, 0
  {
    || i >= |argv| || argv[i] == "" || argv[i][0] != '-' || argv[i] == "-" || argv[i] == "--"
    || RegularCluster(argv, opts, i, 1)
  }

  predicate RegularCluster(argv: seq<CString>, opts: CString, i: nat, p: nat)
    requires i < |argv| && p <= |argv[i]|
    decreases |argv| - i, 0, |argv[i]| - p
  {
    var w := argv[i];
    if p == |w| then Regular(argv, opts, i + 1)
    else if !TakesArg(opts, w[p]) then RegularCluster(argv, opts, i, p + 1)
    else p == 1 && Regular(argv, opts, if p + 1 < |w| || i + 1 >= |argv| then i + 1 else i + 2)
  }

  lemma ConsEqual<T>(a: T, b: T, x: seq<T>, y: seq<T>)
    ensures [a] + x == [b] + y <==> a == b && x == y
  {
    assert ([a] + x)[0] == a && ([b] + y)[0] == b;
    assert ([a] + x)[1..] == x && ([b] + y)[1..] == y;
  }

  /** At a word boundary the caller sees the reference parse exactly when the rest is regular. */
  lemma {:induction false} CallsMatch(argv: seq<CString>, opts: CString, i: nat)
    ensures Calls(argv, opts, State(i, 1)) == Parse(argv, opts, i) <==> Regular(argv, opts, i)
    decreases |argv| - i, 1, 0
  {
    if i < |argv| && argv[i] != "" && argv[i][0] == '-' && argv[i] != "-" && argv[i] != "--" {
      ClusterMatches(argv, opts, i, 1);
    }
  }

  lemma {:induction false} ClusterMatches(argv: seq<CString>, opts: CString, i: nat, p: nat)
    requires i < |argv| && 1 <= p < |argv[i]| && argv[i][0] == '-' && argv[i] != "--"
    ensures Calls(argv, opts, State(i, p)) == ParseCluster(argv, opts, i, p) <==> RegularCluster(argv, opts, i, p)
    decreases |argv| - i, 0, |argv[i]| - p
  {
    hide Calls, ParseCluster, RegularCluster, Parse, Regular;
    var w, s := argv[i], State(i, p);
    var (t, e) := Step(argv, opts, s);
    CallsOnce(argv, opts, s);
    ParseOnce(argv, opts, i, p);
    if !TakesArg(opts, w[p]) {
      if p + 1 == |w| {
        CallsMatch(argv, opts, i + 1);
      } else {
        ClusterMatches(argv, opts, i, p + 1);
      }
      ConsEqual(Seen(e, t.ind), Seen(e, t.ind), Calls(argv, opts, t), ParseCluster(argv, opts, i, p + 1));
    } else {
      var (f, j) := ArgumentOf(argv, i, p);
      CallsMatch(argv, opts, j);
      ConsEqual(Seen(e, t.ind), Seen(f, j), Calls(argv, opts, t), Parse(argv, opts, j));
    }
  }

  /** The reference's result for an option that takes an argument, and where it goes on. */
  function ArgumentOf(argv: seq<CString>, i: nat, p: nat): (Event, nat)
    requires i < |argv| && p < |argv[i]|
  {
    var w := argv[i];
    if p + 1 < |w| then (OptArg(w[p], w[p + 1..]), i + 1)
    else if i + 1 >= |argv| then (Missing(w[p]), i + 1)
    else (OptArg(w[p], argv[i + 1]), i + 2)
  }

  lemma CallsOnce(argv: seq<CString>, opts: CString, s: State)
    requires Ok(argv, s) && Step(argv, opts, s).1 != End
    ensures var (t, e) := Step(argv, opts, s);
            Calls(argv, opts, s) == [Seen(e, t.ind)] + Calls(argv, opts, t)
  {
    Progress(argv, opts, s);
  }

  lemma ParseOnce(argv: seq<CString>, opts: CString, i: nat, p: nat)
    requires i < |argv| && 1 <= p < |argv[i]|
    ensures var w := argv[i];
            if TakesArg(opts, w[p]) then
              var (f, j) := ArgumentOf(argv, i, p);
              && ParseCluster(argv, opts, i, p) == [Seen(f, j)] + Parse(argv, opts, j)
              && (RegularCluster(argv, opts, i, p) <==> p == 1 && Regular(argv, opts, j))
            else
              && ParseCluster(argv, opts, i, p)
                 == [Seen(if Known(opts, w[p]) then Opt(w[p]) else Unknown(w[p]), if p + 1 == |w| then i + 1 else i)]
                    + ParseCluster(argv, opts, i, p + 1)
              && (RegularCluster(argv, opts, i, p) <==> RegularCluster(argv, opts, i, p + 1))
    ensures p + 1 == |argv[i]| ==>
              && ParseCluster(argv, opts, i, p + 1) == Parse(argv, opts, i + 1)
              && RegularCluster(argv, opts, i, p + 1) == Regular(argv, opts, i + 1)
  {
  }

  /** The parse from the first argument on is the documented one exactly for regular arguments. */
  lemma GetoptMatches(argv: seq<CString>, opts: CString)
    ensures Calls(argv, opts, State(1, 1)) == Parse(argv, opts, 1) <==> Regular(argv, opts, 1)
  {
    CallsMatch(argv, opts, 1);
  }

  /** A concrete argv on which the two differ: in "-ab" with "ab:" the argument of b is taken to be "b"
      itself, and the next word is left. */
  lemma ArgumentOfSecondOption()
    ensures var argv: seq<CString>, opts: CString := ["prog", "-ab", "x"], "ab:";
            Calls(argv, opts, State(1, 1)) != Parse(argv, opts, 1)
            && Step(argv, opts, State(1, 2)) == (State(2, 1), OptArg('b', "b"))
  {
    var argv: seq<CString>, opts: CString := ["prog", "-ab", "x"], "ab:";
    assert Find(opts, 'a') == 0 && Find(opts, 'b') == 1;
    assert TakesArg(opts, 'b') && !TakesArg(opts, 'a');
    assert !RegularCluster(argv, opts, 1, 2);
    assert !Regular(argv, opts, 1);
    GetoptMatches(argv, opts);
  }

  // ---------------------------------------------------------------- the function

  const EOF: int := -1

  function ReturnValue(e: Event): int {
    match e
    case End => EOF
    case Opt(c) => c as int
    case OptArg(c, _) => c as int
    case _ => '?' as int
  }

  /** In the option string the first occurrence of `c` is followed by a colon. */
  predicate Required(opts: string, c: char) {
    exists k :: 0 <= k && k + 1 < |opts| && opts[k] == c && c !in opts[..k] && opts[k + 1] == ':'
  }

  lemma RequiredAtFirst(opts: CString, c: char)
    requires c in opts
    ensures Required(opts, c) <==> CharAt(opts, Find(opts, c) + 1) == ':'
  {
    var i := Find(opts, c);
    FindIsFirst(opts, c);
    if k :| 0 <= k && k + 1 < |opts| && opts[k] == c && c !in opts[..k] && opts[k + 1] == ':' {
      SameFirst(opts, c, i, k);
    }
  }

  lemma SameFirst(s: string, c: char, i: nat, k: nat)
    requires i < |s| && k < |s| && s[i] == c == s[k] && c !in s[..i] && c !in s[..k]
    ensures i == k
  {
    assert forall j :: 0 <= j < i ==> s[j] == s[..i][j] != c;
    assert forall j :: 0 <= j < k ==> s[j] == s[..k][j] != c;
  }

  lemma {:induction false} FindIsFirst(s: CString, c: char)
    ensures c !in s[..Find(s, c)]
  {
    if s != "" && s[0] != c {
      FindIsFirst(s[1..], c);
      assert s[..Find(s, c)] == [s[0]] + s[1..][..Find(s[1..], c)];
    }
  }

  /** The variables of the parser; `optchr` is static in the function, the others are global. */
  class Parser {
    var optind: nat
    var optchr: nat
    var optopt: char
    var optarg: Option<string>

    constructor ()
      ensures optind == 1 && optchr == 1 && optarg == None
    {
      optind, optchr, optopt, optarg := 1, 1, NULCHAR, None;
    }

    ghost function Abs(): State
      reads this
    {
      State(optind, optchr)
    }

    method NextChar(argv: seq<CString>)
      requires optind < |argv| && 1 <= optchr < |argv[optind]|
      modifies this`optind, this`optchr
      ensures Abs() == Advance(argv, old(Abs()))
    {
      optchr := optchr + 1;
      if CharAt(argv[optind], optchr) == NULCHAR {
        optchr, optind := 1, optind + 1;
      }
    }

    /** getopt: one call. */
    method GetOpt(argv: seq<CString>, optstring: CString) returns (r: int)
      requires Ok(argv, Abs())
      modifies this
      ensures var (t, e) := Step(argv, optstring, old(Abs()));
              && Abs() == t && r == ReturnValue(e)
              && (e.OptArg? ==> optarg == Some(e.arg))
              && (e.Opt? ==> optarg == None)
              && (e == End || e.Unknown? || e.Missing? ==> optarg == old(optarg))
              && (e != End ==> optopt == e.c)
      ensures old(optchr) == 1 ==>
                (r == EOF <==> || old(optind) >= |argv|
                               || argv[old(optind)] == "" || argv[old(optind)][0] != '-'
                               || argv[old(optind)] == "-" || argv[old(optind)] == "--")
      ensures old(optchr) > 1 ==> r != EOF
      ensures r == EOF ==> optchr == 1 && optopt == old(optopt) && optarg == old(optarg)
      ensures r == EOF ==>
                optind == old(optind) + if old(optind) < |argv| && argv[old(optind)] == "--" then 1 else 0
      ensures r != EOF ==>
                var w, p := argv[old(optind)], old(optchr);
                && optopt == w[p]
                && (w[p] == ':' || w[p] !in optstring ==> r == '?' as int && optarg == old(optarg))
                && ((w[p] == ':' || w[p] !in optstring) || !Required(optstring, w[p]) ==>
                      if p + 1 < |w| then optind == old(optind) && optchr == p + 1
                      else optind == old(optind) + 1 && optchr == 1)
                && (w[p] != ':' && w[p] in optstring && !Required(optstring, w[p]) ==>
                      r == w[p] as int && optarg == None)
                && (w[p] != ':' && w[p] in optstring && Required(optstring, w[p]) ==>
                      && optchr == 1
                      && if |w| > 2 then
                           r == w[p] as int && optarg == Some(w[2..]) && optind == old(optind) + 1
                         else if old(optind) + 1 < |argv| then
                           r == w[p] as int && optarg == Some(argv[old(optind) + 1]) && optind == old(optind) + 2
                         else r == '?' as int && optarg == old(optarg) && optind == old(optind) + 1)
    {
      hide Required;
      if optchr == 1 {
        if optind >= |argv| {
          return EOF;
        }
        if CharAt(argv[optind], 0) != '-' || CharAt(argv[optind], 1) == NULCHAR {
          return EOF;
        }
      }
      if argv[optind] == "--" {
        optind := optind + 1;
        return EOF;
      }
      optopt := CharAt(argv[optind], optchr);
      var cp := Find(optstring, optopt);
      if cp == |optstring| || optopt == ':' {
        NextChar(argv);
        return '?' as int;
      }
      RequiredAtFirst(optstring, optopt);
      if CharAt(optstring, cp + 1) == ':' {
        optchr := 1;
        if CharAt(argv[optind], optchr + 1) != NULCHAR {
          optarg := Some(argv[optind][optchr + 1..]);
          optind := optind + 1;
        } else {
          optind := optind + 1;
          if optind >= |argv| {
            return '?' as int;
          }
          optarg := Some(argv[optind]);
          optind := optind + 1;
        }
      } else {
        NextChar(argv);
        optarg := None;
      }
      return optstring[cp] as int;
    }
  }
}
