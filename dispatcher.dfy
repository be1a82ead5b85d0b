/** The command loop of `main.ts`: frames come in as discriminator/payload
    pairs, each recognised command produces one reply, and the `catch`
    decides whether a failed send ends the process. The frames are already
    decoded to text; `render` (from markdownit.ts) and std/path's
    `normalize` enter as function parameters, and the socket as the first
    `socket.send` that throws, if any (`SendFailure`). */
module Dispatcher {
  import opened Wrappers
  import Text

  datatype Action = ShowAction | ScrollAction | BaseAction

  /** The discriminator text of each action. */
  function ActionName(a: Action): string {
    match a
    case ShowAction => "show"
    case ScrollAction => "scroll"
    case BaseAction => "base"
  }

  /** The `switch (action)`: `show`, `scroll` and `base` are commands,
      every other frame is skipped. */
  function ParseAction(frame: string): (r: Option<Action>)
    ensures r.Some? <==> frame == "show" || frame == "scroll" || frame == "base"
    ensures r.Some? ==> ActionName(r.value) == frame
  {
    if frame == "show" then Some(ShowAction)
    else if frame == "scroll" then Some(ScrollAction)
    else if frame == "base" then Some(BaseAction)
    else None
  }

  lemma ParseActionName(a: Action)
    ensures ParseAction(ActionName(a)) == Some(a)
  {
  }

  /** The JSON object sent back, one variant per action. */
  datatype Reply =
    | ShowReply(html: string, lcount: int)
    | ScrollReply(line: string)
    | BaseReply(base: string)

  /** The number of matches of `/(?:\r?\n)/g`, scanning left to right
      without overlap as a global match does. */
  function NewlineMatches(s: string): (r: nat)
    ensures r <= |s|
  {
    if |s| == 0 then 0
    else if |s| >= 2 && s[0] == '\r' && s[1] == '\n' then 1 + NewlineMatches(s[2..])
    else if s[0] == '\n' then 1 + NewlineMatches(s[1..])
    else NewlineMatches(s[1..])
  }

  /** Every match holds exactly one line feed and every line feed is in a
      match, so the regular expression counts line feeds: a CRLF pair
      counts once and a lone carriage return not at all. */
  lemma {:induction false} NewlineMatchesCountsLineFeeds(s: string)
    ensures NewlineMatches(s) == Text.Count(s, '\n')
  {
    if |s| >= 2 && s[0] == '\r' && s[1] == '\n' {
      NewlineMatchesCountsLineFeeds(s[2..]);
      assert s[1..][1..] == s[2..];
    } else if |s| > 0 {
      NewlineMatchesCountsLineFeeds(s[1..]);
    }
  }

  /** `lcount`: `(content.match(/(?:\r?\n)/g) || []).length + 1`, the number
      of lines, at least one. */
  function LineCount(content: string): (n: int)
    ensures n >= 1
    ensures n == Text.Count(content, '\n') + 1
  {
    NewlineMatchesCountsLineFeeds(content);
    NewlineMatches(content) + 1
  }

  /** The argument `main.ts` passes to `normalize`: the payload with a
      separator appended, so it always ends with `/`. */
  function BaseArgument(payload: string): (r: string)
    ensures |r| == |payload| + 1 && r[|r| - 1] == '/' && r[..|payload|] == payload
  {
    payload + "/"
  }

  /** The reply one command produces from its payload. */
  function Respond(a: Action, payload: string, render: string -> string, normalize: string -> string): (r: Reply)
    ensures a == ShowAction ==> r == ShowReply(render(payload), Text.Count(payload, '\n') + 1)
    ensures a == ScrollAction ==> r == ScrollReply(payload)
    ensures a == BaseAction ==> r == BaseReply(normalize(BaseArgument(payload)))
  {
    match a
    case ShowAction => ShowReply(render(payload), LineCount(payload))
    case ScrollAction => ScrollReply(payload)
    case BaseAction => BaseReply(normalize(BaseArgument(payload)))
  }

  /** The payload read by `(await generator.next()).value!`: the next frame,
      or, when the stream has ended, `undefined`, which `TextDecoder.decode`
      turns into the empty string. */
  function NextPayload(frames: seq<string>): (r: string)
    ensures r in frames || (|frames| == 0 && r == "")
  {
    if |frames| > 0 then frames[0] else ""
  }

  /** The replies the loop sends for a frame sequence when every send
      succeeds: the reference definition the loop is proved against. */
  function Dispatch(frames: seq<string>, render: string -> string, normalize: string -> string): (r: seq<Reply>)
    ensures 2 * |r| <= |frames| + 1
    decreases |frames|
  {
    if |frames| == 0 then []
    else match ParseAction(frames[0])
      case None => Dispatch(frames[1..], render, normalize)
      case Some(a) =>
        var rest := frames[1..];
        [Respond(a, NextPayload(rest), render, normalize)] +
        Dispatch(if |rest| > 0 then rest[1..] else [], render, normalize)
  }

  /** `Dispatch` from position `i` on, when frame `i` is not a command:
      that frame alone is consumed. */
  lemma DispatchSkip(frames: seq<string>, i: nat, render: string -> string, normalize: string -> string)
    requires i < |frames| && ParseAction(frames[i]).None?
    ensures Dispatch(frames[i..], render, normalize) == Dispatch(frames[i + 1..], render, normalize)
  {
    assert frames[i..][1..] == frames[i + 1..];
  }

  /** `Dispatch` from position `i` on, when frame `i` is a command: its reply
      to the payload that follows (empty at the end of the stream), then the
      frames after that payload. */
  lemma DispatchStep(frames: seq<string>, i: nat, render: string -> string, normalize: string -> string)
    requires i < |frames| && ParseAction(frames[i]).Some?
    ensures var next := if i + 1 < |frames| then i + 2 else i + 1;
      var payload := if i + 1 < |frames| then frames[i + 1] else "";
      Dispatch(frames[i..], render, normalize) ==
        [Respond(ParseAction(frames[i]).value, payload, render, normalize)] + Dispatch(frames[next..], render, normalize)
  {
    var f := frames[i..];
    assert f[0] == frames[i] && f[1..] == frames[i + 1..];
    if i + 1 < |frames| {
      assert f[1..][1..] == frames[i + 2..];
    }
  }

  /** The sequence bookkeeping of one send: `reply` is the next reply due
      after `sent`. */
  lemma SendStep(all: seq<Reply>, sent: seq<Reply>, reply: Reply, later: seq<Reply>)
    requires all == sent + ([reply] + later)
    ensures |sent| < |all| && all[..|sent|] == sent && all[|sent|] == reply
    ensures all == (sent + [reply]) + later
  {
  }

  /** How the loop ends. */
  datatype Outcome =
    | Finished           // the stream ended; the loop returns
    | Exit               // `InvalidStateError`: the preview page is gone, `Deno.exit()`
    | Logged(name: string)  // any other error: logged, the loop ends, no exit

  /** The `catch` block: only an error named `InvalidStateError` exits. */
  function Classify(name: string): (o: Outcome)
    ensures o == Exit <==> name == "InvalidStateError"
    ensures o != Exit ==> o == Logged(name)
  {
    if name == "InvalidStateError" then Exit else Logged(name)
  }

  /** The first `socket.send` that throws: its position among the sends
      and the name of the error. Sends before it succeed. */
  datatype SendFailure = SendFailure(at: nat, name: string)

  /** Whether a failure strikes one of the first `n` sends. */
  predicate FailsWithin(failure: Option<SendFailure>, n: nat) {
    failure.Some? && failure.value.at < n
  }

  /** The `for await` loop. The replies sent are the replies `Dispatch`
      gives, in order, up to the first failing send; the loop finishes
      exactly when no send fails, and otherwise ends as the `catch` block
      classifies that send's error. */
  method Serve(frames: seq<string>, render: string -> string, normalize: string -> string,
               failure: Option<SendFailure>)
    returns (sent: seq<Reply>, outcome: Outcome)
    ensures var all := Dispatch(frames, render, normalize);
      if FailsWithin(failure, |all|) then
        sent == all[..failure.value.at] && outcome == Classify(failure.value.name)
      else
        sent == all && outcome == Finished
  {
    ghost var all := Dispatch(frames, render, normalize);
    sent := [];
    var i := 0;
    while i < |frames|
      invariant 0 <= i <= |frames|
      invariant sent + Dispatch(frames[i..], render, normalize) == all
      invariant !FailsWithin(failure, |sent|)
    {
      var action := ParseAction(frames[i]);
      if action.None? {
        DispatchSkip(frames, i, render, normalize);
        i := i + 1;
        continue;
      }
      DispatchStep(frames, i, render, normalize);
      var payload := if i + 1 < |frames| then frames[i + 1] else "";
      i := if i + 1 < |frames| then i + 2 else i + 1;
      var reply := Respond(action.value, payload, render, normalize);
      SendStep(all, sent, reply, Dispatch(frames[i..], render, normalize));
      if failure.Some? && failure.value.at == |sent| {
        outcome := Classify(failure.value.name);
        return;
      }
      sent := sent + [reply];
    }
    assert frames[i..] == [];
    outcome := Finished;
  }

  // ---------------------------------------------------------------------
  // The editor's side of the protocol, and what the loop makes of it

  /** A command as the editor sends it: a discriminator and its payload. */
  datatype Command = Command(action: Action, payload: string)

  /** The frames that carry a list of commands, two per command. */
  function Frames(cmds: seq<Command>): (frames: seq<string>)
    ensures |frames| == 2 * |cmds|
  {
    if |cmds| == 0 then []
    else [ActionName(cmds[0].action), cmds[0].payload] + Frames(cmds[1..])
  }

  /** The reply each command asks for, in command order. */
  function Replies(cmds: seq<Command>, render: string -> string, normalize: string -> string): (r: seq<Reply>)
    ensures |r| == |cmds|
    ensures forall k :: 0 <= k < |cmds| ==> r[k] == Respond(cmds[k].action, cmds[k].payload, render, normalize)
  {
    if |cmds| == 0 then []
    else [Respond(cmds[0].action, cmds[0].payload, render, normalize)] + Replies(cmds[1..], render, normalize)
  }

  /** Commands in front of any further frames: each takes its own payload,
      whatever that payload reads (`"show"` included), and yields exactly
      one reply, in order; the frames after them are dispatched as if
      alone. */
  lemma {:induction false} DispatchFrames(cmds: seq<Command>, rest: seq<string>,
                                          render: string -> string, normalize: string -> string)
    ensures Dispatch(Frames(cmds) + rest, render, normalize) == Replies(cmds, render, normalize) + Dispatch(rest, render, normalize)
  {
    if |cmds| == 0 {
      assert Frames(cmds) + rest == rest;
    } else {
      var c := cmds[0];
      assert Frames(cmds) + rest == [ActionName(c.action), c.payload] + (Frames(cmds[1..]) + rest);
      DispatchCommand(c, Frames(cmds[1..]) + rest, render, normalize);
      DispatchFrames(cmds[1..], rest, render, normalize);
    }
  }

  /** One command in front of further frames: its reply, then the rest. */
  lemma DispatchCommand(c: Command, rest: seq<string>, render: string -> string, normalize: string -> string)
    ensures Dispatch([ActionName(c.action), c.payload] + rest, render, normalize) ==
            [Respond(c.action, c.payload, render, normalize)] + Dispatch(rest, render, normalize)
  {
    var f := [ActionName(c.action), c.payload] + rest;
    assert f[0] == ActionName(c.action) && f[1..][0] == c.payload;
    assert f[1..][1..] == rest;
    ParseActionName(c.action);
  }

  /** A well-formed stream yields exactly the replies its commands ask for. */
  lemma DispatchRoundTrip(cmds: seq<Command>, render: string -> string, normalize: string -> string)
    ensures Dispatch(Frames(cmds), render, normalize) == Replies(cmds, render, normalize)
  {
    DispatchFrames(cmds, [], render, normalize);
    assert Frames(cmds) + [] == Frames(cmds);
  }

  /** An unrecognised frame between commands produces no reply, consumes
      only itself, and leaves the later commands undisturbed. */
  lemma UnknownFrameSkipped(before: seq<Command>, unknown: string, after: seq<Command>,
                            render: string -> string, normalize: string -> string)
    requires ParseAction(unknown).None?
    ensures Dispatch(Frames(before) + [unknown] + Frames(after), render, normalize) ==
            Replies(before + after, render, normalize)
  {
    DispatchFrames(before, [unknown] + Frames(after), render, normalize);
    assert Frames(before) + [unknown] + Frames(after) == Frames(before) + ([unknown] + Frames(after));
    assert ([unknown] + Frames(after))[1..] == Frames(after);
    DispatchRoundTrip(after, render, normalize);
    RepliesConcat(before, after, render, normalize);
  }

  lemma {:induction false} RepliesConcat(a: seq<Command>, b: seq<Command>, render: string -> string, normalize: string -> string)
    ensures Replies(a + b, render, normalize) == Replies(a, render, normalize) + Replies(b, render, normalize)
  {
    if |a| == 0 {
      assert a + b == b;
    } else {
      assert (a + b)[0] == a[0] && (a + b)[1..] == a[1..] + b;
      RepliesConcat(a[1..], b, render, normalize);
    }
  }

  /** A stream that ends right after a discriminator does not fail: the
      missing payload reads as the empty string and the last command still
      gets its reply. */
  lemma TruncatedCommand(cmds: seq<Command>, last: Action, render: string -> string, normalize: string -> string)
    ensures Dispatch(Frames(cmds) + [ActionName(last)], render, normalize) ==
            Replies(cmds, render, normalize) + [Respond(last, "", render, normalize)]
  {
    DispatchFrames(cmds, [ActionName(last)], render, normalize);
    ParseActionName(last);
    assert [ActionName(last)][1..] == [];
  }

  /** Example: `show` with a two-line document yields one
      `show` reply with `lcount` 2 and the rendered HTML. */
  lemma ShowExample(doc: string, render: string -> string, normalize: string -> string)
    requires doc == "# Title\nBody"
    ensures Dispatch(["show", doc], render, normalize) == [ShowReply(render(doc), 2)]
  {
    assert doc == "# Title" + "\n" + "Body";
    Text.CountConcat("# Title" + "\n", "Body", '\n');
    Text.CountConcat("# Title", "\n", '\n');
    assert Text.Count("# Title", '\n') == 0;
    assert Text.Count("Body", '\n') == 0;
    assert Text.Count(doc, '\n') == 1;
    assert ["show", doc][1..] == [doc];
    assert ParseAction("show") == Some(ShowAction);
    assert Respond(ShowAction, doc, render, normalize) == ShowReply(render(doc), 2);
  }
}
