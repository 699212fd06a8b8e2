/**
 * The chat loop of `main`: each input line is trimmed and then ends the loop
 * (`quit`/`exit` in any letter case), is skipped (nothing left), or is sent as
 * one request whose result is shown on the terminal.
 */
module Chat {
  import opened Wrappers
  import opened Text
  import opened Exchange

  /** What the loop does with one input line. */
  datatype Action = Quit | Skip | Send(message: string)

  /** The trimmed line, lower-cased, is `quit` or `exit`. */
  predicate IsQuitCommand(m: string) {
    ToLower(m) == "quit" || ToLower(m) == "exit"
  }

  /** The quit test is a case-insensitive comparison with either keyword. */
  lemma QuitCommandIff(m: string)
    ensures IsQuitCommand(m) <==> EqualIgnoringCase(m, "quit") || EqualIgnoringCase(m, "exit")
  {
    ToLowerEqualsIff(m, "quit");
    ToLowerEqualsIff(m, "exit");
  }

  /** The decision for one raw line, in the order the loop tests it. */
  function Classify(line: string): Action {
    var userMessage := Trim(line);
    if IsQuitCommand(userMessage) then Quit
    else if userMessage == [] then Skip
    else Send(userMessage)
  }

  /**
   * A line quits exactly on a keyword, is skipped exactly when it is
   * whitespace only, and otherwise sends its trimmed text, which is then
   * neither empty nor a keyword.
   */
  lemma ClassifyIff(line: string)
    ensures Classify(line).Quit? <==> IsQuitCommand(Trim(line))
    ensures Classify(line).Skip? <==> forall k :: 0 <= k < |line| ==> IsWhitespace(line[k])
    ensures Classify(line).Send? ==>
      Classify(line).message == Trim(line) && Classify(line).message != [] && !IsQuitCommand(Trim(line))
  {
    TrimEmptyIff(line);
  }

  /** The decision for each input line. */
  function Actions(lines: seq<string>): seq<Action> {
    seq(|lines|, j requires 0 <= j < |lines| => Classify(lines[j]))
  }

  /** There is one decision per line. */
  lemma ActionsLength(lines: seq<string>)
    ensures |Actions(lines)| == |lines|
  {
  }

  /** Classifying a concatenation classifies each part. */
  lemma ActionsConcat(a: seq<string>, b: seq<string>)
    ensures Actions(a + b) == Actions(a) + Actions(b)
  {
    assert forall j :: 0 <= j < |a| ==> (a + b)[j] == a[j];
    assert forall j :: |a| <= j < |a| + |b| ==> (a + b)[j] == b[j - |a|];
  }

  /** The index of the first quit decision, or `|actions|` when there is none. */
  function FirstQuit(actions: seq<Action>): (n: nat)
    ensures n <= |actions|
  {
    if actions == [] then 0
    else if actions[0].Quit? then 0
    else 1 + FirstQuit(actions[1..])
  }

  /** No decision before `FirstQuit` quits, and the one at it does. */
  lemma {:induction false} FirstQuitIsFirst(actions: seq<Action>)
    ensures forall j :: 0 <= j < FirstQuit(actions) ==> !actions[j].Quit?
    ensures FirstQuit(actions) < |actions| ==> actions[FirstQuit(actions)].Quit?
  {
    if actions != [] && !actions[0].Quit? {
      FirstQuitIsFirst(actions[1..]);
      assert forall j :: 1 <= j < |actions| ==> actions[j] == actions[1..][j - 1];
    }
  }

  /** `FirstQuit` is determined by its contract. */
  lemma FirstQuitUnique(actions: seq<Action>, n: nat)
    requires n <= |actions|
    requires forall j :: 0 <= j < n ==> !actions[j].Quit?
    requires n < |actions| ==> actions[n].Quit?
    ensures FirstQuit(actions) == n
  {
    FirstQuitIsFirst(actions);
  }

  /** The messages sent for the first `n` decisions, none of which quits. */
  function SentUpTo(actions: seq<Action>, n: nat): seq<string>
    requires n <= |actions|
  {
    if n == 0 then []
    else SentUpTo(actions, n - 1) + if actions[n - 1].Send? then [actions[n - 1].message] else []
  }

  /** The messages the loop sends for the input `lines`, in order. */
  function Sent(lines: seq<string>): seq<string> {
    var actions := Actions(lines);
    SentUpTo(actions, FirstQuit(actions))
  }

  /** The positions below `n` of the decisions that send, in increasing order. */
  function SendIndices(actions: seq<Action>, n: nat): (r: seq<nat>)
    requires n <= |actions|
    ensures forall k :: 0 <= k < |r| ==> r[k] < n && actions[r[k]].Send?
    ensures forall k, l :: 0 <= k < l < |r| ==> r[k] < r[l]
    ensures forall j :: 0 <= j < n && actions[j].Send? ==> j in r
  {
    if n == 0 then []
    else SendIndices(actions, n - 1) + if actions[n - 1].Send? then [n - 1] else []
  }

  /** The k-th message sent for the first `n` decisions is the k-th sending decision's message. */
  lemma {:induction false} SentUpToAtIndices(actions: seq<Action>, n: nat)
    requires n <= |actions|
    ensures |SentUpTo(actions, n)| == |SendIndices(actions, n)|
    ensures forall k :: 0 <= k < |SendIndices(actions, n)| ==>
      SentUpTo(actions, n)[k] == actions[SendIndices(actions, n)[k]].message
  {
    if n > 0 {
      SentUpToAtIndices(actions, n - 1);
    }
  }

  /**
   * Every sent message is a trimmed input line from before the first quit
   * line, sent in input order; every line before it that is not blank is
   * sent; no sent message is empty or a quit keyword.
   */
  lemma SentAreTrimmedLinesInOrder(lines: seq<string>)
    ensures var q := FirstQuit(Actions(lines)); var idx := SendIndices(Actions(lines), q);
      |Sent(lines)| == |idx|
      && (forall k :: 0 <= k < |idx| ==> idx[k] < q && Sent(lines)[k] == Trim(lines[idx[k]]))
      && (forall k, l :: 0 <= k < l < |idx| ==> idx[k] < idx[l])
      && (forall j :: 0 <= j < q && !Classify(lines[j]).Skip? ==> j in idx)
    ensures forall k :: 0 <= k < |Sent(lines)| ==>
      Sent(lines)[k] != [] && !IsQuitCommand(Sent(lines)[k])
  {
    var actions := Actions(lines);
    var q := FirstQuit(actions);
    var idx := SendIndices(actions, q);
    FirstQuitIsFirst(actions);
    SentUpToAtIndices(actions, q);
    forall k | 0 <= k < |idx|
      ensures Sent(lines)[k] == Trim(lines[idx[k]])
      ensures Sent(lines)[k] != [] && !IsQuitCommand(Sent(lines)[k])
    {
      ClassifyIff(lines[idx[k]]);
    }
  }

  /** What the first `n` decisions send depends on those decisions only. */
  lemma {:induction false} SentUpToPrefix(a: seq<Action>, b: seq<Action>, n: nat)
    requires n <= |a| && n <= |b| && a[..n] == b[..n]
    ensures SentUpTo(a, n) == SentUpTo(b, n)
  {
    if n > 0 {
      assert a[n - 1] == a[..n][n - 1] == b[..n][n - 1] == b[n - 1];
      assert a[..n - 1] == a[..n][..n - 1];
      assert b[..n - 1] == b[..n][..n - 1];
      SentUpToPrefix(a, b, n - 1);
    }
  }

  /** Whatever follows the first quit decision is never looked at. */
  lemma QuitDecisionIgnoresRest(pre: seq<Action>, rest: seq<Action>)
    requires FirstQuit(pre) == |pre|
    ensures var a := pre + [Quit] + rest;
      FirstQuit(a) == |pre| && SentUpTo(a, FirstQuit(a)) == SentUpTo(pre, FirstQuit(pre))
  {
    var a := pre + [Quit] + rest;
    FirstQuitIsFirst(pre);
    assert forall j :: 0 <= j < |pre| ==> a[j] == pre[j];
    assert a[|pre|] == Quit;
    FirstQuitUnique(a, |pre|);
    assert a[..|pre|] == pre[..|pre|];
    SentUpToPrefix(a, pre, |pre|);
  }

  /**
   * Nothing after a quit line is read: the input up to and including the
   * first quit line decides every message sent, whatever follows it.
   */
  lemma QuitIgnoresRest(pre: seq<string>, quitLine: string, rest: seq<string>)
    requires FirstQuit(Actions(pre)) == |pre| && IsQuitCommand(Trim(quitLine))
    ensures FirstQuit(Actions(pre + [quitLine] + rest)) == |pre|
    ensures Sent(pre + [quitLine] + rest) == Sent(pre)
  {
    ActionsConcat(pre, [quitLine]);
    ActionsConcat(pre + [quitLine], rest);
    assert Actions([quitLine]) == [Quit];
    QuitDecisionIgnoresRest(Actions(pre), Actions(rest));
  }

  /** A sending decision after a skipped one is counted one position later. */
  lemma {:induction false} SentUpToShift(pre: seq<Action>, rest: seq<Action>, n: nat)
    requires |pre| <= n <= |pre| + |rest|
    ensures SentUpTo(pre + [Skip] + rest, n + 1) == SentUpTo(pre + rest, n)
    decreases n
  {
    var withSkip, without := pre + [Skip] + rest, pre + rest;
    if n == |pre| {
      assert withSkip[n] == Skip;
      assert withSkip[..n] == without[..n];
      SentUpToPrefix(withSkip, without, n);
    } else {
      assert withSkip[n] == without[n - 1];
      SentUpToShift(pre, rest, n - 1);
    }
  }

  /** A skipped decision after the first quit leaves that quit where it is. */
  lemma SkipKeepsEarlyQuit(pre: seq<Action>, rest: seq<Action>)
    requires FirstQuit(pre + rest) < |pre|
    ensures FirstQuit(pre + [Skip] + rest) == FirstQuit(pre + rest)
  {
    var withSkip, without := pre + [Skip] + rest, pre + rest;
    var q := FirstQuit(without);
    FirstQuitIsFirst(without);
    assert forall j :: 0 <= j <= q ==> withSkip[j] == without[j];
    FirstQuitUnique(withSkip, q);
  }

  /** A skipped decision before the first quit moves that quit one place on. */
  lemma SkipShiftsLateQuit(pre: seq<Action>, rest: seq<Action>)
    requires |pre| <= FirstQuit(pre + rest)
    ensures FirstQuit(pre + [Skip] + rest) == FirstQuit(pre + rest) + 1
  {
    var withSkip, without := pre + [Skip] + rest, pre + rest;
    var q := FirstQuit(without);
    FirstQuitIsFirst(without);
    forall j | 0 <= j < q + 1
      ensures !withSkip[j].Quit?
    {
      if j < |pre| {
        assert withSkip[j] == without[j];
      } else if j > |pre| {
        assert withSkip[j] == without[j - 1];
      }
    }
    if q < |without| {
      assert withSkip[q + 1] == without[q];
    }
    FirstQuitUnique(withSkip, q + 1);
  }

  /** A skipped decision changes nothing that is sent. */
  lemma SkipDecisionIsInvisible(pre: seq<Action>, rest: seq<Action>)
    ensures var withSkip, without := pre + [Skip] + rest, pre + rest;
      SentUpTo(withSkip, FirstQuit(withSkip)) == SentUpTo(without, FirstQuit(without))
  {
    var withSkip, without := pre + [Skip] + rest, pre + rest;
    var q := FirstQuit(without);
    if q < |pre| {
      SkipKeepsEarlyQuit(pre, rest);
      assert withSkip[..q] == without[..q];
      SentUpToPrefix(withSkip, without, q);
    } else {
      SkipShiftsLateQuit(pre, rest);
      SentUpToShift(pre, rest, q);
    }
  }

  /** A blank line sends nothing: removing it leaves the messages unchanged. */
  lemma SkipIsInvisible(pre: seq<string>, blank: string, rest: seq<string>)
    requires forall k :: 0 <= k < |blank| ==> IsWhitespace(blank[k])
    ensures Sent(pre + [blank] + rest) == Sent(pre + rest)
  {
    ClassifyIff(blank);
    ActionsConcat(pre, [blank]);
    ActionsConcat(pre + [blank], rest);
    ActionsConcat(pre, rest);
    assert Actions([blank]) == [Skip];
    SkipDecisionIsInvisible(Actions(pre), Actions(rest));
  }

  /** The block `print_styled_response` or the error arm prints for one result. */
  function Display(reply: Result<string, string>): seq<string> {
    match reply
    case Ok(text) => [Separator(), text, Separator()]
    case Err(e) => ["Error: " + e]
  }

  /** `"-".repeat(60)`. */
  function Separator(): string {
    seq(60, _ => '-')
  }

  /** A reply is shown between two separator lines of 60 dashes. */
  lemma DisplayFraming(text: string)
    ensures var shown := Display(Ok(text));
      |shown| == 3 && shown[1] == text && shown[0] == shown[2]
      && |shown[0]| == 60 && forall k :: 0 <= k < 60 ==> shown[0][k] == '-'
  {
  }

  /** An error is shown as one line, `Error: ` followed by its text. */
  lemma DisplayError(e: string)
    ensures Display(Err(e)) == ["Error: " + e]
  {
  }

  /** An error line starts with `E`, so it is never a separator line. */
  lemma ErrorLineIsNotSeparator(e: string)
    ensures "Error: " + e != Separator()
  {
    assert ("Error: " + e)[0] == 'E' != '-' == Separator()[0];
  }

  /** Different results are shown differently. */
  lemma DisplayInjective(r1: Result<string, string>, r2: Result<string, string>)
    requires Display(r1) == Display(r2)
    ensures r1 == r2
  {
    if r1.Ok? && r2.Ok? {
      assert r1.value == Display(r1)[1];
    } else if r1.Err? && r2.Err? {
      assert r1.error == Display(r1)[0][7..];
      assert r2.error == Display(r2)[0][7..];
    }
  }

  /** Everything shown for a sequence of results, one block after another. */
  function Screen(replies: seq<Result<string, string>>): seq<string> {
    if replies == [] then []
    else Screen(replies[..|replies| - 1]) + Display(replies[|replies| - 1])
  }

  /**
   * What reading the line at `n` before the first quit does: a quit line is
   * the first quit; any other line moves past it, sending its trimmed text
   * unless that is empty.
   */
  lemma LineStep(lines: seq<string>, n: nat, sent: seq<string>)
    requires n < |lines| && n <= FirstQuit(Actions(lines)) && sent == SentUpTo(Actions(lines), n)
    ensures IsQuitCommand(Trim(lines[n])) ==> FirstQuit(Actions(lines)) == n
    ensures !IsQuitCommand(Trim(lines[n])) ==>
      n + 1 <= FirstQuit(Actions(lines))
      && SentUpTo(Actions(lines), n + 1) == sent + if Trim(lines[n]) == [] then [] else [Trim(lines[n])]
  {
    var actions := Actions(lines);
    assert actions[n] == Classify(lines[n]);
    FirstQuitIsFirst(actions);
    if actions[n].Quit? {
      FirstQuitUnique(actions, n);
    }
  }

  /** The screen is empty exactly when there are no results. */
  lemma ScreenEmptyIff(replies: seq<Result<string, string>>)
    ensures Screen(replies) == [] <==> replies == []
  {
    if replies != [] {
      assert |Display(replies[|replies| - 1])| > 0;
    }
  }

  /** The last line on the screen is a separator exactly when the last result is a reply. */
  lemma LastLineKind(replies: seq<Result<string, string>>)
    requires replies != []
    ensures var screen := Screen(replies);
      screen != [] && (screen[|screen| - 1] == Separator() <==> replies[|replies| - 1].Ok?)
  {
    var last := replies[|replies| - 1];
    if last.Err? {
      ErrorLineIsNotSeparator(last.error);
    }
  }

  /** Two sequences that are equal with equally long tails have equal heads and tails. */
  lemma AppendCancel(x: seq<string>, d: seq<string>, y: seq<string>, e: seq<string>)
    requires x + d == y + e && |d| == |e|
    ensures x == y && d == e
  {
    assert x == (x + d)[..|x|];
    assert y == (y + e)[..|y|];
    assert d == (x + d)[|x|..];
    assert e == (y + e)[|y|..];
  }

  /**
   * The screen determines the results: a reply block ends in a separator
   * and an error line never is one, so the blocks can be told apart.
   */
  lemma {:induction false} ScreenDeterminesReplies(r1: seq<Result<string, string>>, r2: seq<Result<string, string>>)
    requires Screen(r1) == Screen(r2)
    ensures r1 == r2
    decreases |r1|
  {
    ScreenEmptyIff(r1);
    ScreenEmptyIff(r2);
    if r1 != [] && r2 != [] {
      var p1, p2 := r1[..|r1| - 1], r2[..|r2| - 1];
      var a, b := r1[|r1| - 1], r2[|r2| - 1];
      LastLineKind(r1);
      LastLineKind(r2);
      assert |Display(a)| == |Display(b)|;
      AppendCancel(Screen(p1), Display(a), Screen(p2), Display(b));
      DisplayInjective(a, b);
      ScreenDeterminesReplies(p1, p2);
      assert r1 == p1 + [a] && r2 == p2 + [b];
    }
  }

  /** `replies[k]` is the result of the k-th request, the one built from `sent[k]`. */
  predicate Answers(sent: seq<string>, replies: seq<Result<string, string>>, server: (nat, ClaudeRequest) -> HttpOutcome) {
    |replies| == |sent|
    && forall k :: 0 <= k < |sent| ==> replies[k] == ReplyOf(server(k, BuildRequest(sent[k])))
  }

  /** Sending one more message and recording its result keeps `Answers`. */
  lemma AnswersExtend(sent: seq<string>, replies: seq<Result<string, string>>,
                      server: (nat, ClaudeRequest) -> HttpOutcome, message: string, reply: Result<string, string>)
    requires Answers(sent, replies, server)
    requires reply == ReplyOf(server(|sent|, BuildRequest(message)))
    ensures Answers(sent + [message], replies + [reply], server)
  {
  }

  /** Showing one more result appends its block to the screen. */
  lemma ScreenAppend(replies: seq<Result<string, string>>, reply: Result<string, string>)
    ensures Screen(replies + [reply]) == Screen(replies) + Display(reply)
  {
    assert (replies + [reply])[..|replies|] == replies;
  }

  /**
   * The main loop over the input `lines`, `server(k, request)` being what the
   * HTTP layer produces for the k-th request. It returns the messages sent,
   * the result of each request, the lines shown, whether it ended by a quit
   * line, and how many lines it read.
   */
  method ChatLoop(lines: seq<string>, server: (nat, ClaudeRequest) -> HttpOutcome)
    returns (sent: seq<string>, replies: seq<Result<string, string>>, screen: seq<string>,
             quit: bool, consumed: nat)
    ensures sent == Sent(lines)
    ensures Answers(sent, replies, server)
    ensures screen == Screen(replies)
    ensures quit <==> FirstQuit(Actions(lines)) < |lines|
    ensures consumed == if quit then FirstQuit(Actions(lines)) + 1 else |lines|
  {
    ActionsLength(lines);
    sent, replies, screen, quit := [], [], [], false;
    var i := 0;
    while i < |lines|
      invariant i <= FirstQuit(Actions(lines))
      invariant sent == SentUpTo(Actions(lines), i)
      invariant Answers(sent, replies, server)
      invariant screen == Screen(replies)
    {
      LineStep(lines, i, sent);
      var input := lines[i];
      i := i + 1;
      var userMessage := Trim(input);

      if IsQuitCommand(userMessage) {
        quit := true;
        break;
      }

      if userMessage == [] {
        continue;
      }

      var response := SendToClaude(request => server(|sent|, request), userMessage);
      assert response == ReplyOf(server(|sent|, BuildRequest(userMessage)));
      AnswersExtend(sent, replies, server, userMessage, response);
      ScreenAppend(replies, response);
      sent, replies, screen := sent + [userMessage], replies + [response], screen + Display(response);
    }
    consumed := i;
  }

  /**
   * What `read_line` leaves in the fresh buffer on its n-th call: the n-th
   * line, or nothing once standard input has ended (`Ok(0)`).
   */
  function ReadLine(stdin: seq<string>, n: nat): string {
    if n < |stdin| then stdin[n] else ""
  }

  /**
   * The source loop as written, run for `fuel` iterations from its `next`-th
   * read: true when it reaches `break` within them.
   */
  function SourceLoop(stdin: seq<string>, next: nat, fuel: nat): bool
    decreases fuel
  {
    if fuel == 0 then false
    else IsQuitCommand(Trim(ReadLine(stdin, next))) || SourceLoop(stdin, next + 1, fuel - 1)
  }

  /**
   * Without a quit line, the source loop never ends: past the end of input
   * every read is an empty line, which is skipped, for any number of iterations.
   */
  lemma {:induction false} SourceLoopNeverEndsAtEof(stdin: seq<string>, next: nat, fuel: nat)
    requires forall j :: next <= j < |stdin| ==> !IsQuitCommand(Trim(stdin[j]))
    ensures !SourceLoop(stdin, next, fuel)
    decreases fuel
  {
    if fuel > 0 {
      assert !IsQuitCommand(Trim(ReadLine(stdin, next)));
      SourceLoopNeverEndsAtEof(stdin, next + 1, fuel - 1);
    }
  }

  /** A failed call with body `rate limited` prints exactly `Error: API Error: rate limited`. */
  lemma RateLimitedShown(status: StatusCode, decoded: Result<ClaudeResponse, string>)
    requires !IsSuccess(status)
    ensures Display(ReplyOf(Answered(status, "rate limited", decoded))) == ["Error: API Error: rate limited"]
  {
    var reply := ReplyOf(Answered(status, "rate limited", decoded));
    assert reply == Err(ApiErrorPrefix + "rate limited");
    DisplayError(reply.error);
    assert ApiErrorPrefix + "rate limited" == "API Error: rate limited";
    assert "Error: " + "API Error: rate limited" == "Error: API Error: rate limited";
  }

  /** A successful reply `Hello!` is printed between two separator lines. */
  lemma HelloShownFramed(status: StatusCode, body: string)
    requires IsSuccess(status)
    ensures var hello := ClaudeResponse([ContentBlock("text", "Hello!")], "m", "assistant");
      Display(ReplyOf(Answered(status, body, Ok(hello)))) == [Separator(), "Hello!", Separator()]
  {
  }

  /** A successful reply without content blocks prints the placeholder. */
  lemma EmptyContentShowsPlaceholder(status: StatusCode, body: string, model: string, role: string)
    requires IsSuccess(status)
    ensures Display(ReplyOf(Answered(status, body, Ok(ClaudeResponse([], model, role)))))
      == [Separator(), NoContent, Separator()]
  {
  }

  /** A short session: blank lines are skipped, `Exit` ends it, and what follows is never read. */
  lemma SessionExample()
    ensures var lines := ["  hi \n", "\t\n", "Exit\n", "later\n"];
      Sent(lines) == ["hi"] && FirstQuit(Actions(lines)) == 2
  {
    var lines := ["  hi \n", "\t\n", "Exit\n", "later\n"];
    assert TrimStart(" hi \n") == TrimStart("hi \n") == "hi \n";
    assert "hi \n"[..3] == "hi " && "hi "[..2] == "hi";
    assert TrimEnd("hi \n") == TrimEnd("hi ");
    assert TrimEnd("hi ") == TrimEnd("hi") == "hi";
    assert Trim(lines[0]) == "hi";
    assert TrimStart("\t\n") == TrimStart("\n") == "";
    assert Trim(lines[1]) == "";
    assert "Exit\n"[..4] == "Exit";
    assert Trim(lines[2]) == "Exit";
    assert |ToLower("hi")| == 2 && |ToLower("")| == 0;
    assert ToLower("Exit") == "exit" by {
      assert LowerAscii('E') == 'e';
    }
    var actions := Actions(lines);
    assert actions[0] == Classify(lines[0]) == Send("hi");
    assert actions[1] == Classify(lines[1]) == Skip;
    assert actions[2] == Classify(lines[2]) == Quit;
    FirstQuitUnique(actions, 2);
  }
}
