/**
 * The main loop of the InstantGrat menu: each prompt reads one line, trims it and
 * dispatches on an exact match with one of eight tokens; "0" is the only way out.
 */
module Menu {
  import opened Wrappers
  import opened JavaText

  /** The eight menu entries, in the order the menu lists them. */
  datatype Command =
    | Compliment | Joke | AsciiArt | Countdown | Progress | Spinner | SystemInfo | Exit

  /** The token that selects each command. */
  function Token(c: Command): (t: string)
    ensures |t| == 1 && '0' <= t[0] <= '7'
  {
    match c
    case Compliment => "1"
    case Joke => "2"
    case AsciiArt => "3"
    case Countdown => "4"
    case Progress => "5"
    case Spinner => "6"
    case SystemInfo => "7"
    case Exit => "0"
  }

  /**
   * The switch on the trimmed choice: the command whose token it is, or None
   * ("Unknown option") when it is no command's token.
   */
  function ParseCommand(token: string): (r: Option<Command>)
    ensures r.Some? ==> Token(r.value) == token
    ensures r.None? ==> forall c: Command :: Token(c) != token
  {
    if token == "1" then Some(Compliment)
    else if token == "2" then Some(Joke)
    else if token == "3" then Some(AsciiArt)
    else if token == "4" then Some(Countdown)
    else if token == "5" then Some(Progress)
    else if token == "6" then Some(Spinner)
    else if token == "7" then Some(SystemInfo)
    else if token == "0" then Some(Exit)
    else None
  }

  /** Each command's token selects that command and no other. */
  lemma ParseToken(c: Command, d: Command)
    ensures ParseCommand(Token(c)) == Some(c)
    ensures Token(c) == Token(d) ==> c == d
  {
  }

  /**
   * The session's "running" condition after one prompt: it turns false only when the
   * trimmed choice is "0"; every other line, unknown ones included, keeps it running.
   */
  function Step(running: bool, token: string): (next: bool)
    ensures next <==> running && token != "0"
  {
    running && ParseCommand(token) != Some(Exit)
  }

  /**
   * What a session did with its input: the choice each prompt dispatched (None for an
   * unknown option), and whether it ended by "0" rather than by running out of input.
   */
  datatype Transcript = Transcript(choices: seq<Option<Command>>, exited: bool)

  /**
   * The session over the console lines `lines`. A round reads the choice line; the
   * countdown reads its argument line; every round but the exit reads the line that
   * answers "Press Enter to return to menu...". A read with no line left ends the
   * session without a farewell (Scanner.nextLine throws NoSuchElementException).
   */
  function Session(lines: seq<string>): (t: Transcript)
    ensures |t.choices| <= |lines| && (|lines| > 0 ==> |t.choices| > 0)
    ensures 2 * |t.choices| <= |lines| + 1
    ensures !t.exited ==> |lines| <= 3 * |t.choices|
    decreases |lines|
  {
    if lines == [] then Transcript([], false)
    else
      var choice := ParseCommand(Trim(lines[0]));
      if choice == Some(Exit) then Transcript([choice], true)
      else if |lines| < RoundLength(choice) then Transcript([choice], false)
      else
        var rest := Session(lines[RoundLength(choice)..]);
        Transcript([choice] + rest.choices, rest.exited)
  }

  /** The lines a round that did not exit reads: the choice, the countdown's argument, the acknowledgement. */
  function RoundLength(choice: Option<Command>): (n: nat)
    ensures n >= 2 && (n == 3 <==> choice == Some(Countdown))
  {
    if choice == Some(Countdown) then 3 else 2
  }

  /** One round of the session, unfolded. */
  lemma {:induction false} SessionRound(lines: seq<string>, choice: Option<Command>)
    requires lines != [] && choice == ParseCommand(Trim(lines[0]))
    ensures choice == Some(Exit) ==> Session(lines) == Transcript([choice], true)
    ensures choice != Some(Exit) && |lines| < RoundLength(choice) ==> Session(lines) == Transcript([choice], false)
    ensures choice != Some(Exit) && |lines| >= RoundLength(choice) ==>
      Session(lines) == Transcript([choice] + Session(lines[RoundLength(choice)..]).choices, Session(lines[RoundLength(choice)..]).exited)
  {
  }

  /** The exit command is the last choice of a transcript if and only if it exited, and no earlier choice. */
  ghost predicate ExitsLast(t: Transcript) {
    (t.exited <==> t.choices != [] && t.choices[|t.choices| - 1] == Some(Exit)) &&
    forall k :: 0 <= k < |t.choices| - 1 ==> t.choices[k] != Some(Exit)
  }

  /** A round that does not exit keeps ExitsLast. */
  lemma ExitsLastCons(choice: Option<Command>, rest: Transcript)
    requires choice != Some(Exit) && ExitsLast(rest)
    ensures ExitsLast(Transcript([choice] + rest.choices, rest.exited))
  {
    var cs := [choice] + rest.choices;
    forall k | 0 <= k < |cs| - 1
      ensures cs[k] != Some(Exit)
    {
      if k > 0 {
        assert cs[k] == rest.choices[k - 1];
      }
    }
    if rest.choices != [] {
      assert cs[|cs| - 1] == rest.choices[|rest.choices| - 1];
    }
  }

  /** A session exits exactly when its last dispatched choice is the exit command, and no earlier choice is. */
  lemma {:induction false} SessionExitsLast(lines: seq<string>)
    ensures ExitsLast(Session(lines))
    decreases |lines|
  {
    if lines != [] {
      var choice := ParseCommand(Trim(lines[0]));
      SessionRound(lines, choice);
      if choice != Some(Exit) && |lines| >= RoundLength(choice) {
        var rest := lines[RoundLength(choice)..];
        SessionExitsLast(rest);
        ExitsLastCons(choice, Session(rest));
      }
    }
  }

  /**
   * A session that exits has read a line that trims to "0": the line `p` returned, the
   * last line it reads, since the session over the lines up to `p` is the same.
   */
  lemma {:induction false} SessionExitNeedsZero(lines: seq<string>) returns (p: nat)
    requires Session(lines).exited
    ensures p < |lines| && Trim(lines[p]) == "0"
    ensures Session(lines[..p + 1]) == Session(lines)
    decreases |lines|
  {
    var choice := ParseCommand(Trim(lines[0]));
    SessionRound(lines, choice);
    if choice == Some(Exit) {
      p := 0;
      SessionRound(lines[..1], choice);
    } else {
      var used := RoundLength(choice);
      var q := SessionExitNeedsZero(lines[used..]);
      assert lines[used..][q] == lines[used + q];
      p := used + q;
      ExitInLaterRound(lines, choice, q);
    }
  }

  /** An exit `q` lines into the rest of the session is the last line that the whole session reads. */
  lemma {:induction false} ExitInLaterRound(lines: seq<string>, choice: Option<Command>, q: nat)
    requires lines != [] && choice == ParseCommand(Trim(lines[0])) && choice != Some(Exit)
    requires RoundLength(choice) + q < |lines|
    requires Session(lines[RoundLength(choice)..][..q + 1]) == Session(lines[RoundLength(choice)..])
    ensures Session(lines[..RoundLength(choice) + q + 1]) == Session(lines)
  {
    var used := RoundLength(choice);
    var read := lines[..used + q + 1];
    assert read[used..] == lines[used..][..q + 1];
    SameFirstRound(read, lines, choice);
  }

  /** Two inputs whose first round agrees, and whose rest gives the same session, give the same session. */
  lemma {:induction false} SameFirstRound(a: seq<string>, b: seq<string>, choice: Option<Command>)
    requires a != [] && b != [] && a[0] == b[0] && choice == ParseCommand(Trim(a[0])) && choice != Some(Exit)
    requires |a| >= RoundLength(choice) && |b| >= RoundLength(choice)
    requires Session(a[RoundLength(choice)..]) == Session(b[RoundLength(choice)..])
    ensures Session(a) == Session(b)
  {
    SessionRound(a, choice);
    SessionRound(b, choice);
  }

  /**
   * The running condition decides the round: the first prompt's choice stops the
   * session at once exactly when `Step` turns it off.
   */
  lemma {:induction false} StepDecidesRound(lines: seq<string>)
    requires lines != []
    ensures !Step(true, Trim(lines[0])) <==> Session(lines) == Transcript([Some(Exit)], true)
  {
    SessionRound(lines, ParseCommand(Trim(lines[0])));
  }

  /** A "0" at the first prompt ends the session at once, whatever follows. */
  lemma {:induction false} ExitAtFirstPrompt(lines: seq<string>)
    requires lines != [] && Trim(lines[0]) == "0"
    ensures Session(lines) == Transcript([Some(Exit)], true)
  {
  }

  /**
   * One round of the loop over the lines `rest` still unread, after the choices
   * already dispatched: where the session ends, or what it leaves for the next round.
   */
  lemma {:induction false} RoundAfter(rest: seq<string>, choices: seq<Option<Command>>, choice: Option<Command>)
    requires rest != [] && choice == ParseCommand(Trim(rest[0]))
    ensures choice == Some(Exit) ==> Session(rest) == Transcript([choice], true)
    ensures choice != Some(Exit) && |rest| < RoundLength(choice) ==> Session(rest) == Transcript([choice], false)
    ensures choice != Some(Exit) && |rest| >= RoundLength(choice) ==>
      choices + Session(rest).choices == (choices + [choice]) + Session(rest[RoundLength(choice)..]).choices &&
      Session(rest).exited == Session(rest[RoundLength(choice)..]).exited
  {
    SessionRound(rest, choice);
    if choice != Some(Exit) && |rest| >= RoundLength(choice) {
      var next := Session(rest[RoundLength(choice)..]).choices;
      assert choices + ([choice] + next) == (choices + [choice]) + next;
    }
  }

  /**
   * The read-dispatch loop of `main`, `while (true)` with the exit and the exhausted
   * input as its two ways out.
   */
  method RunSession(lines: seq<string>) returns (t: Transcript)
    ensures t == Session(lines)
  {
    var choices: seq<Option<Command>> := [];
    var pos := 0;
    while true
      invariant 0 <= pos <= |lines|
      invariant Session(lines) == Transcript(choices + Session(lines[pos..]).choices, Session(lines[pos..]).exited)
      decreases |lines| - pos
    {
      if pos == |lines| {
        assert choices + [] == choices;
        return Transcript(choices, false);
      }
      ghost var rest := lines[pos..];
      var choice := ParseCommand(Trim(lines[pos]));
      RoundAfter(rest, choices, choice);
      pos := pos + 1;
      if choice == Some(Exit) {
        return Transcript(choices + [choice], true);
      }
      if choice == Some(Countdown) {
        if pos == |lines| {
          return Transcript(choices + [choice], false);
        }
        pos := pos + 1;
      }
      if pos == |lines| {
        return Transcript(choices + [choice], false);
      }
      pos := pos + 1;
      assert rest[RoundLength(choice)..] == lines[pos..];
      choices := choices + [choice];
    }
  }
}
