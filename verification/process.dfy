/**
 The string handling around process creation (PlatformProcess): the
 replace-all helper, the Windows application name and command line, the
 process-id string, and the POSIX argument vector that is built from the
 tokens of the command line. Spawning, waiting and signalling are not part
 of this model; the tokenizer's output and the path separator are parameters.
 */
module Processes {
  import opened Results

  // ---------------------------------------------------------------------
  // findAndReplaceAll
  // ---------------------------------------------------------------------

  /** Whether `needle` occurs in `s` starting at position `i`. */
  predicate OccursAt(s: string, needle: string, i: nat) {
    i + |needle| <= |s| && s[i..i + |needle|] == needle
  }

  /** std::string::find(needle, from) for a non-empty needle: the first occurrence at or after `from`. */
  function FindFrom(s: string, needle: string, from: nat): (r: Option<nat>)
    requires |needle| > 0
    ensures r.Some? ==> from <= r.value && OccursAt(s, needle, r.value)
    decreases |s| - from
  {
    if from + |needle| > |s| then None
    else if OccursAt(s, needle, from) then Some(from)
    else FindFrom(s, needle, from + 1)
  }

  /** The search finds the first occurrence: none is skipped, and it fails only when there is none. */
  lemma {:induction false} FindFromFirst(s: string, needle: string, from: nat)
    requires |needle| > 0
    ensures FindFrom(s, needle, from).Some? ==>
      forall i :: from <= i < FindFrom(s, needle, from).value ==> !OccursAt(s, needle, i)
    ensures FindFrom(s, needle, from).None? ==> forall i :: from <= i ==> !OccursAt(s, needle, i)
    decreases |s| - from
  {
    if from + |needle| <= |s| && !OccursAt(s, needle, from) {
      FindFromFirst(s, needle, from + 1);
    }
  }

  /**
   The loop of findAndReplaceAll from position `from` on: find the next
   occurrence, replace it, and search again right after the inserted text.
   */
  function ReplaceFrom(s: string, needle: string, repl: string, from: nat): string
    requires |needle| > 0
    decreases |s| - from
  {
    match FindFrom(s, needle, from)
    case None => s
    case Some(pos) => ReplaceFrom(s[..pos] + repl + s[pos + |needle|..], needle, repl, pos + |repl|)
  }

  /**
   findAndReplaceAll(data, toSearch, replaceStr). With an empty `toSearch`
   every search succeeds and the loop never ends; that call has no result
   (`None`, see EmptySearchNeverEnds).
   */
  function FindAndReplaceAll(s: string, needle: string, repl: string): (r: Option<string>)
    ensures r.Some? <==> |needle| > 0
  {
    if |needle| == 0 then None else Some(ReplaceFrom(s, needle, repl, 0))
  }

  /**
   Replace-all as a reader means it: scan from the left, and at each
   occurrence emit the replacement and continue after the occurrence, so
   replacement text is never searched again.
   */
  function ReplaceAll(s: string, needle: string, repl: string): string
    requires |needle| > 0
    decreases |s|
  {
    if |s| < |needle| then s
    else if s[..|needle|] == needle then repl + ReplaceAll(s[|needle|..], needle, repl)
    else [s[0]] + ReplaceAll(s[1..], needle, repl)
  }

  /** The search skips a position where the needle does not start. */
  lemma ReplaceFromSkips(s: string, needle: string, repl: string, from: nat)
    requires |needle| > 0 && !OccursAt(s, needle, from)
    ensures ReplaceFrom(s, needle, repl, from) == ReplaceFrom(s, needle, repl, from + 1)
  {
    assert FindFrom(s, needle, from) == FindFrom(s, needle, from + 1);
  }

  /** At an occurrence the loop replaces it and resumes after the inserted text. */
  lemma ReplaceFromHits(s: string, needle: string, repl: string, from: nat, replaced: string)
    requires |needle| > 0 && OccursAt(s, needle, from)
    requires replaced == s[..from] + repl + s[from + |needle|..]
    ensures ReplaceFrom(s, needle, repl, from) == ReplaceFrom(replaced, needle, repl, from + |repl|)
  {
    assert FindFrom(s, needle, from) == Some(from);
  }

  /** Past the last place the needle fits, the loop leaves the string alone. */
  lemma ReplaceFromPastEnd(s: string, needle: string, repl: string, from: nat)
    requires |needle| > 0 && from + |needle| > |s|
    ensures ReplaceFrom(s, needle, repl, from) == s
  {
    assert FindFrom(s, needle, from).None?;
  }

  /** One step of ReplaceAll at an occurrence. */
  lemma ReplaceAllHits(rest: string, needle: string, repl: string)
    requires |needle| > 0 && |rest| >= |needle| && rest[..|needle|] == needle
    ensures ReplaceAll(rest, needle, repl) == repl + ReplaceAll(rest[|needle|..], needle, repl)
  {
  }

  /** One step of ReplaceAll where the needle does not start. */
  lemma ReplaceAllSkips(rest: string, needle: string, repl: string)
    requires |needle| > 0 && |rest| >= |needle| && rest[..|needle|] != needle
    ensures ReplaceAll(rest, needle, repl) == [rest[0]] + ReplaceAll(rest[1..], needle, repl)
  {
  }

  lemma ConcatAssociative(a: string, b: string, c: string)
    ensures (a + b) + c == a + (b + c)
  {
  }

  /** Replacing `n` characters right after a prefix `p`. */
  lemma SpliceAfterPrefix(p: string, rest: string, repl: string, n: nat)
    requires n <= |rest|
    ensures (p + rest)[..|p|] + repl + (p + rest)[|p| + n..] == (p + repl) + rest[n..]
  {
    assert (p + rest)[..|p|] == p;
    assert (p + rest)[|p| + n..] == rest[n..];
  }

  /** A needle at the front of `rest` occurs right after any prefix. */
  lemma OccursAfterPrefix(p: string, rest: string, needle: string)
    requires |rest| >= |needle| && rest[..|needle|] == needle
    ensures OccursAt(p + rest, needle, |p|)
  {
    assert (p + rest)[|p|..|p| + |needle|] == rest[..|needle|];
  }

  /** At an occurrence at the end of the handled prefix, the loop moves past the inserted text. */
  lemma {:induction false} ReplaceFromHitStep(p: string, rest: string, needle: string, repl: string)
    requires |needle| > 0 && |rest| >= |needle| && rest[..|needle|] == needle
    ensures ReplaceFrom(p + rest, needle, repl, |p|)
         == ReplaceFrom((p + repl) + rest[|needle|..], needle, repl, |p| + |repl|)
  {
    OccursAfterPrefix(p, rest, needle);
    SpliceAfterPrefix(p, rest, repl, |needle|);
    ReplaceFromHits(p + rest, needle, repl, |p|, (p + repl) + rest[|needle|..]);
  }

  /** Where the needle does not start at the end of the handled prefix, the loop moves one character on. */
  lemma {:induction false} ReplaceFromSkipStep(p: string, rest: string, needle: string, repl: string)
    requires |needle| > 0 && |rest| >= |needle| && rest[..|needle|] != needle
    ensures ReplaceFrom(p + rest, needle, repl, |p|)
         == ReplaceFrom((p + [rest[0]]) + rest[1..], needle, repl, |p| + 1)
  {
    var s := p + rest;
    assert s[|p|..|p| + |needle|] == rest[..|needle|];
    ReplaceFromSkips(s, needle, repl, |p|);
    assert s == (p + [rest[0]]) + rest[1..];
  }

  /** The loop run from the end of a prefix it has already handled replaces in the rest alone. */
  lemma {:induction false} ReplaceFromIsReplaceAll(p: string, rest: string, needle: string, repl: string)
    requires |needle| > 0
    ensures ReplaceFrom(p + rest, needle, repl, |p|) == p + ReplaceAll(rest, needle, repl)
    decreases |rest|
  {
    var n := |needle|;
    if |rest| < n {
      ReplaceFromPastEnd(p + rest, needle, repl, |p|);
    } else if rest[..n] == needle {
      ReplaceFromIsReplaceAll(p + repl, rest[n..], needle, repl);
      ReplaceFromHitStep(p, rest, needle, repl);
      ReplaceAllHits(rest, needle, repl);
      ConcatAssociative(p, repl, ReplaceAll(rest[n..], needle, repl));
    } else {
      ReplaceFromIsReplaceAll(p + [rest[0]], rest[1..], needle, repl);
      ReplaceFromSkipStep(p, rest, needle, repl);
      ReplaceAllSkips(rest, needle, repl);
      ConcatAssociative(p, [rest[0]], ReplaceAll(rest[1..], needle, repl));
    }
  }

  /** findAndReplaceAll, for every non-empty needle, is the left-to-right replace-all. */
  lemma FindAndReplaceAllIsReplaceAll(s: string, needle: string, repl: string)
    requires |needle| > 0
    ensures FindAndReplaceAll(s, needle, repl) == Some(ReplaceAll(s, needle, repl))
  {
    var none: string := [];
    ReplaceFromIsReplaceAll(none, s, needle, repl);
    assert none + s == s;
    assert none + ReplaceAll(s, needle, repl) == ReplaceAll(s, needle, repl);
  }

  /** A string in which the needle never occurs comes back unchanged. */
  lemma AbsentNeedleUnchanged(s: string, needle: string, repl: string)
    requires |needle| > 0 && forall i :: 0 <= i ==> !OccursAt(s, needle, i)
    ensures FindAndReplaceAll(s, needle, repl) == Some(s)
  {
  }

  /**
   The inserted text is not searched again: replacing "a" by "aa" in "aa"
   gives "aaaa" and stops, where a rescanning loop would never stop.
   */
  lemma ReplacementNotRescanned()
    ensures FindAndReplaceAll("aa", "a", "aa") == Some("aaaa")
  {
    FindAndReplaceAllIsReplaceAll("aa", "a", "aa");
    assert "a"[1..] == [] && "aa"[1..] == "a";
    ReplaceAllHits("a", "a", "aa");
    ReplaceAllHits("aa", "a", "aa");
    assert ReplaceAll([], "a", "aa") == [];
    assert ReplaceAll("a", "a", "aa") == "aa";
    assert "aa" + "aa" == "aaaa";
  }

  /** std::string::find("", pos): the empty string occurs at every position up to the length. */
  function FindEmpty(s: string, from: nat): (r: Option<nat>)
    ensures r.Some? <==> from <= |s|
    ensures r.Some? ==> r.value == from
  {
    if from <= |s| then Some(from) else None
  }

  /**
   The state of the loop after `k` rounds with an empty needle, or after it
   stopped because the search failed: the string and the search position.
   */
  function EmptySearchRounds(s: string, repl: string, k: nat): (string, nat)
  {
    if k == 0 then (s, 0)
    else
      var (d, pos) := EmptySearchRounds(s, repl, k - 1);
      if FindEmpty(d, pos).Some? then (d[..pos] + repl + d[pos..], pos + |repl|) else (d, pos)
  }

  /**
   With an empty needle the search never fails: after any number of rounds the
   position is still inside the string, exactly as far from its end as at the
   start, so findAndReplaceAll does not return.
   */
  lemma {:induction false} EmptySearchNeverEnds(s: string, repl: string, k: nat)
    ensures |EmptySearchRounds(s, repl, k).0| - EmptySearchRounds(s, repl, k).1 == |s|
    ensures FindEmpty(EmptySearchRounds(s, repl, k).0, EmptySearchRounds(s, repl, k).1).Some?
  {
    if k > 0 {
      EmptySearchNeverEnds(s, repl, k - 1);
    }
  }

  /**
   Which characters a "/" replacement leaves: a character other than "/" is
   in the result iff it was in the input, or it is in the separator and a
   "/" was replaced; a "/" is left only when the separator brings one.
   */
  lemma {:induction false} SlashReplaceChars(s: string, sep: string, c: char)
    ensures c in ReplaceAll(s, "/", sep) <==> (c != '/' && c in s) || (c in sep && '/' in s)
    decreases |s|
  {
    if |s| > 0 {
      SlashReplaceChars(s[1..], sep, c);
      assert s == [s[0]] + s[1..];
      assert s[..1] == [s[0]];
      if s[0] == '/' {
        assert ReplaceAll(s, "/", sep) == sep + ReplaceAll(s[1..], "/", sep);
      } else {
        assert ReplaceAll(s, "/", sep) == [s[0]] + ReplaceAll(s[1..], "/", sep);
      }
    }
  }

  /** With a one-character separator the replacement maps "/" to it and keeps every other character in place. */
  lemma {:induction false} SlashReplaceMaps(s: string, sep: char)
    ensures |ReplaceAll(s, "/", [sep])| == |s|
    ensures forall i :: 0 <= i < |s| ==> ReplaceAll(s, "/", [sep])[i] == if s[i] == '/' then sep else s[i]
    decreases |s|
  {
    if |s| > 0 {
      SlashReplaceMaps(s[1..], sep);
      assert s[..1] == [s[0]];
      var t := ReplaceAll(s[1..], "/", [sep]);
      assert ReplaceAll(s, "/", [sep]) == [if s[0] == '/' then sep else s[0]] + t;
    }
  }

  // ---------------------------------------------------------------------
  // The Windows application name and command line
  // ---------------------------------------------------------------------

  /**
   The Windows constructor's application name: every "/" becomes the path
   separator, then ".exe" is appended when the name has no '.'.
   */
  function WindowsApplicationName(name: string, sep: string): (r: string)
    ensures '.' in r
  {
    var replaced := FindAndReplaceAll(name, "/", sep).value;
    if '.' in replaced then replaced else replaced + ".exe"
  }

  /**
   For a separator without '/' or '.': no "/" is left, and ".exe" is appended
   exactly when the given name has no '.'.
   */
  lemma WindowsApplicationNameSpec(name: string, sep: string)
    requires '/' !in sep && '.' !in sep
    ensures '/' !in WindowsApplicationName(name, sep)
    ensures '.' in name ==> WindowsApplicationName(name, sep) == ReplaceAll(name, "/", sep)
    ensures '.' !in name ==> WindowsApplicationName(name, sep) == ReplaceAll(name, "/", sep) + ".exe"
  {
    FindAndReplaceAllIsReplaceAll(name, "/", sep);
    SlashReplaceChars(name, sep, '/');
    SlashReplaceChars(name, sep, '.');
  }

  const Quote: char := '"'

  /**
   The Windows command line: the quoted application name, then a space and
   the arguments when there are any.
   */
  function CommandLine(app: string, args: string): (r: string)
    ensures |args| == 0 ==> |r| == |app| + 2
    ensures |args| > 0 ==> |r| == |app| + 3 + |args| && r[|app| + 2] == ' '
    ensures r[0] == Quote && r[|app| + 1] == Quote && r[1..|app| + 1] == app
  {
    if |args| > 0 then [Quote] + app + [Quote] + " " + args else [Quote] + app + [Quote]
  }

  /** The first position at or after `from` that holds `c`. */
  function IndexOf(s: string, c: char, from: nat): (r: Option<nat>)
    ensures r.Some? ==> from <= r.value < |s| && s[r.value] == c
    ensures r.Some? ==> forall i :: from <= i < r.value ==> s[i] != c
    ensures r.None? ==> forall i :: from <= i < |s| ==> s[i] != c
    decreases |s| - from
  {
    if from >= |s| then None else if s[from] == c then Some(from) else IndexOf(s, c, from + 1)
  }

  /**
   Reading a command line back the way the spawned process sees it: the
   program name between the first two quotes, then nothing or a space and the
   arguments.
   */
  function SplitCommandLine(cmd: string): (r: Option<(string, string)>)
    ensures r.Some? ==> Quote !in r.value.0
  {
    if |cmd| == 0 || cmd[0] != Quote then None
    else match IndexOf(cmd, Quote, 1)
      case None => None
      case Some(k) =>
        var rest := cmd[k + 1..];
        assert forall i :: 0 <= i < k - 1 ==> cmd[1..k][i] == cmd[i + 1];
        if |rest| == 0 then Some((cmd[1..k], ""))
        else if rest[0] == ' ' then Some((cmd[1..k], rest[1..]))
        else None
  }

  /** A quote-free application name and its arguments are recovered from the command line. */
  lemma CommandLineRoundTrip(app: string, args: string)
    requires Quote !in app
    ensures SplitCommandLine(CommandLine(app, args)) == Some((app, args))
  {
    var cmd := CommandLine(app, args);
    assert forall i :: 1 <= i < |app| + 1 ==> cmd[i] == app[i - 1];
    assert IndexOf(cmd, Quote, 1) == Some(|app| + 1);
    if |args| > 0 {
      assert cmd[|app| + 2..] == " " + args;
    }
  }

  // ---------------------------------------------------------------------
  // The process id string
  // ---------------------------------------------------------------------

  /** The largest process id `%u` prints from a DWORD. */
  const MaxPid: nat := 0xFFFF_FFFF

  function DigitChar(d: nat): (c: char)
    requires d < 10
    ensures '0' <= c <= '9'
  {
    ['0', '1', '2', '3', '4', '5', '6', '7', '8', '9'][d]
  }

  function DigitValue(c: char): (d: nat)
    requires '0' <= c <= '9'
    ensures d < 10 && DigitChar(d) == c
  {
    (c as int - '0' as int) as nat
  }

  /** `%u`: the decimal digits of `n`, without leading zeros. */
  function Decimal(n: nat): (r: string)
    ensures |r| > 0 && forall i :: 0 <= i < |r| ==> '0' <= r[i] <= '9'
    ensures |r| > 1 ==> r[0] != '0'
  {
    if n < 10 then [DigitChar(n)] else Decimal(n / 10) + [DigitChar(n % 10)]
  }

  /** The value of a string of decimal digits. */
  function ParseDecimal(s: string): nat
    requires forall i :: 0 <= i < |s| ==> '0' <= s[i] <= '9'
  {
    if |s| == 0 then 0 else 10 * ParseDecimal(s[..|s| - 1]) + DigitValue(s[|s| - 1])
  }

  lemma {:induction false} DecimalRoundTrip(n: nat)
    ensures ParseDecimal(Decimal(n)) == n
  {
    if n >= 10 {
      DecimalRoundTrip(n / 10);
      var d := Decimal(n);
      assert d[..|d| - 1] == Decimal(n / 10);
      assert DigitValue(d[|d| - 1]) == n % 10;
    }
  }

  /** The process id string: "p" followed by the decimal process id. */
  function PidString(pid: nat): (r: string)
    requires pid <= MaxPid
    ensures |r| >= 2 && r[0] == 'p'
  {
    "p" + Decimal(pid)
  }

  /** The id back from a process id string. */
  function ParsePid(s: string): (r: Option<nat>)
  {
    if |s| >= 2 && s[0] == 'p' && forall i :: 1 <= i < |s| ==> '0' <= s[i] <= '9' then
      Some(ParseDecimal(s[1..]))
    else None
  }

  /** Distinct processes get distinct strings: the id is read back from its string. */
  lemma PidStringRoundTrip(pid: nat)
    requires pid <= MaxPid
    ensures ParsePid(PidString(pid)) == Some(pid)
  {
    var s := PidString(pid);
    assert s[1..] == Decimal(pid);
    DecimalRoundTrip(pid);
  }

  // ---------------------------------------------------------------------
  // The POSIX argument vector
  // ---------------------------------------------------------------------

  /** An argv array: each slot a string or NULL. */
  type Argv = seq<Option<string>>

  /** The arguments execve reads: every slot up to the first NULL. */
  function ExecArgs(argv: Argv): (r: seq<string>)
    ensures |r| <= |argv|
    ensures forall i :: 0 <= i < |r| ==> argv[i] == Some(r[i])
    ensures |r| < |argv| ==> argv[|r|].None?
  {
    if |argv| == 0 || argv[0].None? then [] else [argv[0].value] + ExecArgs(argv[1..])
  }

  /**
   The header's argv: the application name, then one slot per token, then
   NULLs up to `tokens + 2` slots.
   */
  function ArgvPlain(app: string, tokens: seq<string>): (argv: Argv)
    ensures |argv| == |tokens| + 2 && argv[|tokens| + 1].None?
  {
    [Some(app)] + seq(|tokens|, i requires 0 <= i < |tokens| => Some(tokens[i])) + [None]
  }

  /** A vector of strings in the first slots of a `width`-slot argv, NULLs after them. */
  function Padded(xs: seq<string>, width: nat): (argv: Argv)
    requires |xs| <= width
    ensures |argv| == width
  {
    seq(|xs|, i requires 0 <= i < |xs| => Some(xs[i])) + seq(width - |xs|, _ => None)
  }

  /** A vector of strings, then at least one NULL: execve reads exactly the strings. */
  lemma {:induction false} ExecArgsOfPadded(xs: seq<string>, width: nat)
    requires |xs| < width
    ensures ExecArgs(Padded(xs, width)) == xs
    decreases |xs|
  {
    if |xs| > 0 {
      ExecArgsOfPadded(xs[1..], width - 1);
      assert Padded(xs, width)[1..] == Padded(xs[1..], width - 1);
      assert xs == [xs[0]] + xs[1..];
    }
  }

  /** The header's argv is the application and the tokens, padded with one NULL. */
  lemma ArgvPlainIsPadded(app: string, tokens: seq<string>)
    ensures ArgvPlain(app, tokens) == Padded([app] + tokens, |tokens| + 2)
  {
    var xs := [app] + tokens;
    assert forall i :: 1 <= i < |xs| ==> ArgvPlain(app, tokens)[i] == Some(tokens[i - 1]);
  }

  /** The header's execve sees the application name and the tokens, in order. */
  lemma ArgvPlainExec(app: string, tokens: seq<string>)
    ensures ExecArgs(ArgvPlain(app, tokens)) == [app] + tokens
  {
    ArgvPlainIsPadded(app, tokens);
    ExecArgsOfPadded([app] + tokens, |tokens| + 2);
  }

  /** `StringUtil::endsWith(s, "\\")`. */
  predicate EndsWithBackslash(s: string) {
    |s| > 0 && s[|s| - 1] == '\\'
  }

  /** Two tokens as one argument: the first one's last character (its backslash) becomes a space. */
  function Join(a: string, b: string): (r: string)
    requires |a| > 0
    ensures |r| == |a| + |b| && r[..|a| - 1] == a[..|a| - 1] && r[|a| - 1] == ' ' && r[|a|..] == b
  {
    a[..|a| - 1] + " " + b
  }

  /**
   The intended arguments: a token ending in a backslash is joined, through a
   space, with the argument that the following tokens make; a backslash on
   the last token stays.
   */
  function Arguments(tokens: seq<string>): (r: seq<string>)
    ensures |r| <= |tokens| && (|tokens| > 0 ==> |r| > 0)
  {
    if |tokens| == 0 then []
    else if |tokens| >= 2 && EndsWithBackslash(tokens[0]) then
      var rest := Arguments(tokens[1..]);
      [Join(tokens[0], rest[0])] + rest[1..]
    else [tokens[0]] + Arguments(tokens[1..])
  }

  /**
   The continuation loop of the POSIX constructor as written. `args` is the
   token vector, which the loop edits; `slots` holds, for each argv entry,
   the index of the token string it points at (NULL when none); `start` is
   `startIndex` and `concat` is `concatenate_next`. On a continuation the
   loop joins the previous TOKEN (not the previous argument) with the
   current one and points the previous slot at the result.
   */
  function ContinueAsWritten(args: seq<string>, i: nat, slots: seq<Option<nat>>, start: nat, concat: bool)
    : (r: (seq<string>, seq<Option<nat>>))
    requires i <= |args| && |slots| == |args| + 2
    requires 1 <= start <= i + 1 && (i >= 1 ==> start >= 2)
    requires concat ==> i >= 1 && EndsWithBackslash(args[i - 1])
    requires forall k :: 0 <= k < |slots| && slots[k].Some? ==> slots[k].value < |args|
    ensures |r.0| == |args| && |r.1| == |slots|
    ensures forall k :: 0 <= k < |r.1| && r.1[k].Some? ==> r.1[k].value < |args|
    ensures r.1[0] == slots[0]
    decreases |args| - i
  {
    if i == |args| then (args, slots)
    else if concat then
      var args' := args[i - 1 := Join(args[i - 1], args[i])];
      ContinueAsWritten(args', i + 1, slots[start - 1 := Some(i - 1)], start, EndsWithBackslash(args'[i]))
    else
      ContinueAsWritten(args, i + 1, slots[start := Some(i)], start + 1, EndsWithBackslash(args[i]))
  }

  /** The POSIX constructor's argv as written: the continuation loop, then argv[0] set to the application. */
  function ArgvAsWritten(app: string, tokens: seq<string>): (argv: Argv)
    ensures |argv| == |tokens| + 2 && argv[0] == Some(app)
  {
    var (args, slots) := ContinueAsWritten(tokens, 0, seq(|tokens| + 2, _ => None), 1, false);
    seq(|slots|, k requires 0 <= k < |slots| =>
      if k == 0 then Some(app) else if slots[k].Some? then Some(args[slots[k].value]) else None)
  }

  /**
   As written, an argument spread over three tokens loses its first part:
   "a\ b\ c" gives the argument "b c" where "a b c" is meant.
   */
  lemma ArgvAsWrittenLosesFirstPart()
    ensures ExecArgs(ArgvAsWritten("x", ["a\\", "b\\", "c"])) == ["x", "b c"]
    ensures Arguments(["a\\", "b\\", "c"]) == ["a b c"]
  {
    var argv := ArgvAsWritten("x", ["a\\", "b\\", "c"]);
    ExampleArgvAsWritten();
    assert ExecArgs(argv[2..]) == [];
    assert ExecArgs(argv[1..]) == ["b c"];
    ExampleArguments();
  }

  /** The loop as written on "a\ b\ c": the first slot ends up on the second, joined token. */
  lemma ExampleArgvAsWritten()
    ensures ArgvAsWritten("x", ["a\\", "b\\", "c"]) == [Some("x"), Some("b c"), None, None, None]
  {
    var t := ["a\\", "b\\", "c"];
    var none: seq<Option<nat>> := seq(5, _ => None);
    var s1 := none[1 := Some(0)];
    assert EndsWithBackslash(t[0]);
    var a2 := t[0 := Join(t[0], t[1])];
    assert a2[1] == "b\\" && EndsWithBackslash(a2[1]);
    var s2 := s1[1 := Some(0)];
    var a3 := a2[1 := Join(a2[1], a2[2])];
    assert a3[1] == "b c" && !EndsWithBackslash(a3[2]);
    var s3 := s2[1 := Some(1)];
    assert ContinueAsWritten(a3, 3, s3, 2, false) == (a3, s3);
    assert ContinueAsWritten(a2, 2, s2, 2, true) == (a3, s3);
    assert ContinueAsWritten(t, 1, s1, 2, true) == (a3, s3);
    assert ContinueAsWritten(t, 0, none, 1, false) == (a3, s3);
  }

  /** The intended arguments of "a\ b\ c": one argument, "a b c". */
  lemma ExampleArguments()
    ensures Arguments(["a\\", "b\\", "c"]) == ["a b c"]
  {
    var t := ["a\\", "b\\", "c"];
    assert Arguments(t[2..]) == ["c"];
    assert Join("b\\", "c") == "b c";
    assert Arguments(t[1..]) == ["b c"];
    assert Join("a\\", "b c") == "a b c";
    assert Arguments(t) == [Join(t[0], "b c")];
  }

  /** Without continuations the loop as written points slot k + 1 at token k and leaves the tokens alone. */
  lemma {:induction false} ContinueAsWrittenWithoutContinuation(args: seq<string>, i: nat, slots: seq<Option<nat>>, concat: bool)
    requires i <= |args| && |slots| == |args| + 2
    requires forall j :: 0 <= j < |args| - 1 ==> !EndsWithBackslash(args[j])
    requires concat ==> i == |args| && i >= 1 && EndsWithBackslash(args[i - 1])
    requires slots[0].None?
    requires forall k :: 1 <= k <= i ==> slots[k] == Some(k - 1)
    requires forall k :: i < k < |slots| ==> slots[k].None?
    ensures var (args', slots') := ContinueAsWritten(args, i, slots, i + 1, concat);
      args' == args && slots'[|args| + 1].None? && forall k :: 1 <= k <= |args| ==> slots'[k] == Some(k - 1)
    decreases |args| - i
  {
    if i < |args| {
      ContinueAsWrittenWithoutContinuation(args, i + 1, slots[i + 1 := Some(i)], EndsWithBackslash(args[i]));
    }
  }

  /** Without continuations the argv as written is the header's plain one. */
  lemma ArgvAsWrittenIsPlainWithoutContinuation(app: string, tokens: seq<string>)
    requires forall i :: 0 <= i < |tokens| - 1 ==> !EndsWithBackslash(tokens[i])
    ensures ArgvAsWritten(app, tokens) == ArgvPlain(app, tokens)
  {
    ContinueAsWrittenWithoutContinuation(tokens, 0, seq(|tokens| + 2, _ => None), false);
  }

  /**
   The continuation loop as intended: each slot holds the whole argument
   built so far (`out`), and a continuation extends the last argument rather
   than the previous token.
   */
  function ContinueJoined(tokens: seq<string>, i: nat, out: seq<string>, concat: bool): (r: seq<string>)
    requires i <= |tokens|
    requires concat ==> |out| > 0 && EndsWithBackslash(out[|out| - 1])
    ensures |r| <= |out| + |tokens| - i
    decreases |tokens| - i
  {
    if i == |tokens| then out
    else if concat then
      var last := Join(out[|out| - 1], tokens[i]);
      ContinueJoined(tokens, i + 1, out[..|out| - 1] + [last], EndsWithBackslash(tokens[i]))
    else ContinueJoined(tokens, i + 1, out + [tokens[i]], EndsWithBackslash(tokens[i]))
  }

  /** The intended POSIX argv: the application, one slot per argument, NULLs up to `tokens + 2` slots. */
  function ArgvJoined(app: string, tokens: seq<string>): (argv: Argv)
    ensures |argv| == |tokens| + 2 && argv[0] == Some(app)
  {
    Padded([app] + ContinueJoined(tokens, 0, [], false), |tokens| + 2)
  }

  /** Joining is associative through a continued token. */
  lemma JoinAssociative(a: string, t: string, b: string)
    requires |a| > 0 && |t| > 0
    ensures Join(Join(a, t), b) == Join(a, Join(t, b))
  {
    assert Join(a, t)[..|Join(a, t)| - 1] == a[..|a| - 1] + " " + t[..|t| - 1];
  }

  /**
   The intended loop, from any point, appends the arguments of the tokens
   left, the first of them joined onto the pending last argument when a
   continuation is open.
   */
  lemma {:induction false} ContinueJoinedIsArguments(tokens: seq<string>, i: nat, out: seq<string>, concat: bool)
    requires i <= |tokens|
    requires concat ==> |out| > 0 && EndsWithBackslash(out[|out| - 1])
    ensures ContinueJoined(tokens, i, out, concat) ==
      if concat && i < |tokens| then
        out[..|out| - 1] + [Join(out[|out| - 1], Arguments(tokens[i..])[0])] + Arguments(tokens[i..])[1..]
      else out + Arguments(tokens[i..])
    decreases |tokens| - i
  {
    if i < |tokens| {
      var t := tokens[i];
      var r := Arguments(tokens[i + 1..]);
      var next := EndsWithBackslash(t) && i + 1 < |tokens|;
      ArgumentsStep(tokens, i);
      if concat {
        var out' := out[..|out| - 1] + [Join(out[|out| - 1], t)];
        ContinueJoinedIsArguments(tokens, i + 1, out', EndsWithBackslash(t));
        if next {
          JoinAssociative(out[|out| - 1], t, r[0]);
          ContinuedOntoPending(out, t, r);
        } else {
          ClosedOntoPending(out, t, r);
        }
      } else {
        ContinueJoinedIsArguments(tokens, i + 1, out + [t], EndsWithBackslash(t));
        if next {
          ContinuedAfterClosed(out, t, r);
        } else {
          ClosedAfterClosed(out, t, r);
        }
      }
    }
  }

  /** One step of Arguments from position `i`. */
  lemma ArgumentsStep(tokens: seq<string>, i: nat)
    requires i < |tokens|
    ensures Arguments(tokens[i..]) ==
      if EndsWithBackslash(tokens[i]) && i + 1 < |tokens| then
        [Join(tokens[i], Arguments(tokens[i + 1..])[0])] + Arguments(tokens[i + 1..])[1..]
      else [tokens[i]] + Arguments(tokens[i + 1..])
  {
    assert tokens[i..][0] == tokens[i];
    assert tokens[i..][1..] == tokens[i + 1..];
  }

  /** Sequence bookkeeping for a continued token after a pending argument. */
  lemma ContinuedOntoPending(out: seq<string>, t: string, r: seq<string>)
    requires |out| > 0 && |out[|out| - 1]| > 0 && |t| > 0 && |r| > 0
    ensures var out' := out[..|out| - 1] + [Join(out[|out| - 1], t)];
      out'[..|out'| - 1] + [Join(out[|out| - 1], Join(t, r[0]))] + r[1..] ==
      out[..|out| - 1] + [Join(out[|out| - 1], ([Join(t, r[0])] + r[1..])[0])] + ([Join(t, r[0])] + r[1..])[1..]
  {
    var out' := out[..|out| - 1] + [Join(out[|out| - 1], t)];
    assert out'[..|out'| - 1] == out[..|out| - 1];
    assert ([Join(t, r[0])] + r[1..])[1..] == r[1..];
  }

  /** Sequence bookkeeping for a closing token after a pending argument. */
  lemma ClosedOntoPending(out: seq<string>, t: string, r: seq<string>)
    requires |out| > 0 && |out[|out| - 1]| > 0
    ensures out[..|out| - 1] + [Join(out[|out| - 1], t)] + r ==
      out[..|out| - 1] + [Join(out[|out| - 1], ([t] + r)[0])] + ([t] + r)[1..]
  {
    assert ([t] + r)[1..] == r;
  }

  /** Sequence bookkeeping for a continued token after a closed argument. */
  lemma ContinuedAfterClosed(out: seq<string>, t: string, r: seq<string>)
    requires |t| > 0 && |r| > 0
    ensures (out + [t])[..|out + [t]| - 1] + [Join(t, r[0])] + r[1..] == out + ([Join(t, r[0])] + r[1..])
  {
    assert (out + [t])[..|out + [t]| - 1] == out;
  }

  /** Sequence bookkeeping for a closing token after a closed argument. */
  lemma ClosedAfterClosed(out: seq<string>, t: string, r: seq<string>)
    ensures out + [t] + r == out + ([t] + r)
  {
  }

  /** The intended execve sees the application name and the joined arguments. */
  lemma ArgvJoinedExec(app: string, tokens: seq<string>)
    ensures ExecArgs(ArgvJoined(app, tokens)) == [app] + Arguments(tokens)
  {
    JoinedLoopIsArguments(tokens);
    ExecArgsOfPadded([app] + Arguments(tokens), |tokens| + 2);
  }

  /** The intended loop, run over all the tokens, yields their arguments. */
  lemma JoinedLoopIsArguments(tokens: seq<string>)
    ensures ContinueJoined(tokens, 0, [], false) == Arguments(tokens)
  {
    var none: seq<string> := [];
    ContinueJoinedIsArguments(tokens, 0, none, false);
    assert tokens[0..] == tokens;
    assert none + Arguments(tokens) == Arguments(tokens);
  }

  /** Without continuations the intended arguments are the tokens themselves. */
  lemma {:induction false} ArgumentsWithoutContinuation(tokens: seq<string>)
    requires forall i :: 0 <= i < |tokens| - 1 ==> !EndsWithBackslash(tokens[i])
    ensures Arguments(tokens) == tokens
    decreases |tokens|
  {
    if |tokens| > 0 {
      ArgumentsWithoutContinuation(tokens[1..]);
    }
  }

  /** Without continuations the header's argv and the intended one are the same array. */
  lemma ArgvJoinedIsPlainWithoutContinuation(app: string, tokens: seq<string>)
    requires forall i :: 0 <= i < |tokens| - 1 ==> !EndsWithBackslash(tokens[i])
    ensures ArgvJoined(app, tokens) == ArgvPlain(app, tokens)
  {
    JoinedLoopIsArguments(tokens);
    ArgumentsWithoutContinuation(tokens);
    ArgvPlainIsPadded(app, tokens);
  }
}
