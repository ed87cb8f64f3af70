/** Command-line parsing of `showtext` (the `for` loop at the top of `main`):
    `showtext [-t seconds] text`. The text is optional here; its absence is
    the usage case handled by the invocation gate. */
module ShowArgs {
  import opened Wrappers

  /** Longest timed display, in seconds. */
  const MaxSeconds := 30

  /** The duration of a display that no `-t` asked for: interruptible. */
  const Interruptible := -1

  /** What `main` has after its argument loop: `duration` and `text` (`NULL` is `None`). */
  datatype Request = Request(duration: int, text: Option<string>)

  /** One lexical unit of the command line: a `-t` together with the argument
      it consumes, or any other argument. */
  datatype Token = TimeOption(seconds: string) | Word(word: string)

  /** The arguments after the program name. */
  function Args(argv: seq<string>): seq<string> {
    if |argv| <= 1 then [] else argv[1..]
  }

  /** How the command line falls apart into tokens: `-t` takes the next
      argument when there is one; a `-t` with nothing after it is a word. */
  function Tokens(args: seq<string>): seq<Token>
    decreases |args|
  {
    if |args| == 0 then []
    else if args[0] == "-t" && |args| > 1 then [TimeOption(args[1])] + Tokens(args[2..])
    else [Word(args[0])] + Tokens(args[1..])
  }

  /** The arguments a token stands for. */
  function Spelled(tokens: seq<Token>): seq<string> {
    if |tokens| == 0 then []
    else
      (match tokens[0]
       case TimeOption(v) => ["-t", v]
       case Word(w) => [w]) + Spelled(tokens[1..])
  }

  /** Tokenising loses and invents nothing: the tokens spell the command line back. */
  lemma {:induction false} TokensSpellArgs(args: seq<string>)
    ensures Spelled(Tokens(args)) == args
    decreases |args|
  {
    if |args| == 0 {
    } else if args[0] == "-t" && |args| > 1 {
      TokensSpellArgs(args[2..]);
      assert args == ["-t", args[1]] + args[2..];
    } else {
      TokensSpellArgs(args[1..]);
      assert args == [args[0]] + args[1..];
    }
  }

  /** The last word of a token sequence. */
  function LastWord(tokens: seq<Token>): Option<string> {
    if |tokens| == 0 then None
    else match tokens[|tokens| - 1]
      case Word(w) => Some(w)
      case TimeOption(_) => LastWord(tokens[..|tokens| - 1])
  }

  /** The argument of the last `-t` of a token sequence. */
  function LastSeconds(tokens: seq<Token>): Option<string> {
    if |tokens| == 0 then None
    else match tokens[|tokens| - 1]
      case TimeOption(v) => Some(v)
      case Word(_) => LastSeconds(tokens[..|tokens| - 1])
  }

  /** `if (duration > 30) duration = 30;` — large values are cut, small and
      negative ones are kept. */
  function Clamp(seconds: int): (d: int)
    ensures d <= MaxSeconds
    ensures d == seconds || (seconds > MaxSeconds && d == MaxSeconds)
  {
    if seconds > MaxSeconds then MaxSeconds else seconds
  }

  /** The duration the command line asks for, `atoi` being the caller's. */
  function RequestedDuration(tokens: seq<Token>, atoi: string -> int): int {
    match LastSeconds(tokens)
    case None => Interruptible
    case Some(v) => Clamp(atoi(v))
  }

  /** Appending a token updates the last word and the last `-t` argument as expected. */
  lemma LastOfAppend(tokens: seq<Token>, t: Token)
    ensures LastWord(tokens + [t]) == if t.Word? then Some(t.word) else LastWord(tokens)
    ensures LastSeconds(tokens + [t]) == if t.TimeOption? then Some(t.seconds) else LastSeconds(tokens)
  {
    assert (tokens + [t])[..|tokens|] == tokens;
  }

  /** The tokens from argument `i` on start with the token at `i`. */
  lemma TokensAt(args: seq<string>, i: nat)
    requires i < |args|
    ensures args[i] == "-t" && i + 1 < |args| ==>
      Tokens(args[i..]) == [TimeOption(args[i + 1])] + Tokens(args[i + 2..])
    ensures !(args[i] == "-t" && i + 1 < |args|) ==>
      Tokens(args[i..]) == [Word(args[i])] + Tokens(args[i + 1..])
  {
    assert args[i..][1..] == args[i + 1..];
    if i + 1 < |args| {
      assert args[i..][2..] == args[i + 2..];
    }
  }

  /** Moving one token from the front of the rest to the end of the prefix. */
  lemma AppendShift(prefix: seq<Token>, t: Token, rest: seq<Token>)
    ensures prefix + ([t] + rest) == (prefix + [t]) + rest
  {
  }

  /** The argument loop of `main`, as written: every `-t` that has a
      following argument sets the (clamped) duration and skips that argument;
      every other argument overwrites the text. The loop runs over `argv`
      from index 1, as the source's does. */
  method ParseArgs(argv: seq<string>, atoi: string -> int) returns (req: Request)
    ensures req.text == LastWord(Tokens(Args(argv)))
    ensures req.duration == RequestedDuration(Tokens(Args(argv)), atoi)
    ensures req.duration <= MaxSeconds
    ensures LastSeconds(Tokens(Args(argv))).None? ==> req.duration == Interruptible
  {
    var args := Args(argv);
    var duration := Interruptible;
    var text: Option<string> := None;
    ghost var seen: seq<Token> := [];
    var i := 0;
    while i < |args|
      invariant i <= |args|
      invariant seen + Tokens(args[i..]) == Tokens(args)
      invariant text == LastWord(seen)
      invariant duration == RequestedDuration(seen, atoi)
      decreases |args| - i
    {
      ghost var before := seen;
      if args[i] == "-t" && i + 1 < |args| {
        duration := Clamp(atoi(args[i + 1]));
        ghost var t := TimeOption(args[i + 1]);
        TokensAt(args, i);
        seen := before + [t];
        LastOfAppend(before, t);
        AppendShift(before, t, Tokens(args[i + 2..]));
        i := i + 2;
      } else {
        text := Some(args[i]);
        ghost var t := Word(args[i]);
        TokensAt(args, i);
        seen := before + [t];
        LastOfAppend(before, t);
        AppendShift(before, t, Tokens(args[i + 1..]));
        i := i + 1;
      }
    }
    assert args[i..] == [] && Tokens(args[i..]) == [];
    assert seen == Tokens(args);
    req := Request(duration, text);
  }

  /** With no `-t` among them, the arguments are all words. */
  lemma {:induction false} WordsOnly(args: seq<string>)
    requires forall k :: 0 <= k < |args| ==> args[k] != "-t"
    ensures |Tokens(args)| == |args|
    ensures forall k :: 0 <= k < |args| ==> Tokens(args)[k] == Word(args[k])
    decreases |args|
  {
    if |args| > 0 {
      WordsOnly(args[1..]);
    }
  }

  /** A trailing `-t` with nothing after it is not an option: it is the text,
      and the duration is whatever the arguments before it asked for
      (see `TrailingDashTAlone`). The one exception is a command
      line that already ends in a bare `-t`, which the new one turns into an
      option. */
  lemma TrailingDashTIsText(args: seq<string>)
    requires |Tokens(args)| == 0 || Tokens(args)[|Tokens(args)| - 1] != Word("-t")
    ensures Tokens(args + ["-t"]) == Tokens(args) + [Word("-t")]
    ensures LastWord(Tokens(args + ["-t"])) == Some("-t")
    ensures LastSeconds(Tokens(args + ["-t"])) == LastSeconds(Tokens(args))
  {
    TrailingDashTAppends(args);
    LastOfAppend(Tokens(args), Word("-t"));
  }

  /** With no `-t` at all before it, a trailing `-t` leaves the display
      interruptible. */
  lemma TrailingDashTAlone(args: seq<string>)
    requires forall k :: 0 <= k < |args| ==> args[k] != "-t"
    ensures LastWord(Tokens(args + ["-t"])) == Some("-t")
    ensures LastSeconds(Tokens(args + ["-t"])).None?
  {
    NoOptionNoDuration(args);
    WordsOnly(args);
    TrailingDashTIsText(args);
  }

  /** The tokens of a command line with a bare `-t` appended. */
  lemma {:induction false} TrailingDashTAppends(args: seq<string>)
    requires |Tokens(args)| == 0 || Tokens(args)[|Tokens(args)| - 1] != Word("-t")
    ensures Tokens(args + ["-t"]) == Tokens(args) + [Word("-t")]
    decreases |args|
  {
    var a := args + ["-t"];
    if |args| == 0 {
      assert a == ["-t"];
    } else if args[0] == "-t" && |args| > 1 {
      assert a[2..] == args[2..] + ["-t"];
      var tail := Tokens(args[2..]);
      assert Tokens(args) == [TimeOption(args[1])] + tail;
      assert |tail| > 0 ==> tail[|tail| - 1] == Tokens(args)[|Tokens(args)| - 1];
      TrailingDashTAppends(args[2..]);
      assert Tokens(a) == [TimeOption(args[1])] + Tokens(a[2..]);
    } else {
      assert a[1..] == args[1..] + ["-t"];
      var tail := Tokens(args[1..]);
      assert Tokens(args) == [Word(args[0])] + tail;
      assert |tail| > 0 ==> tail[|tail| - 1] == Tokens(args)[|Tokens(args)| - 1];
      TrailingDashTAppends(args[1..]);
      assert Tokens(a) == [Word(args[0])] + Tokens(a[1..]);
    }
  }

  /** A command line without `-t` names no duration, so the display is
      interruptible. */
  lemma NoOptionNoDuration(args: seq<string>)
    requires forall k :: 0 <= k < |args| ==> args[k] != "-t"
    ensures LastSeconds(Tokens(args)).None?
  {
    WordsOnly(args);
    NoSecondsAmongWords(Tokens(args));
  }

  /** A token sequence made of words only names no duration. */
  lemma {:induction false} NoSecondsAmongWords(tokens: seq<Token>)
    requires forall k :: 0 <= k < |tokens| ==> tokens[k].Word?
    ensures LastSeconds(tokens).None?
    decreases |tokens|
  {
    if |tokens| > 0 {
      NoSecondsAmongWords(tokens[..|tokens| - 1]);
    }
  }
}
