/**
  The PPS thread of the rear-view camera tool: a loop over two subscriptions, the camera
  command and the window group, that keeps the visibility and group state.
 */
module CameraEvents {

  const ATTRIBUTE := "rearview_camera"
  const PAUSE := "{\"action\": \"pause\"}"

  /** One result of ppsparse; the end of a message is the end of its token list. */
  datatype Token = Attribute(name: string, value: string) | Other | Error

  datatype Fd = CommandFd | GroupFd

  /** What the outside world does during one round of the loop: the outcome of the two
      selects (failure, or the ready descriptors) and of the read each may lead to. */
  datatype Round = Round(
    failed1: bool, ready1: set<Fd>, nread1: int, message1: seq<Token>,
    failed2: bool, ready2: set<Fd>, nread2: int, message2: seq<Token>)

  /** The results of screen_join_window_group, call by call; 0 is success. */
  type JoinResults = nat -> int

  // ------------------------------------------------------------------
  // The events a run of the loop reacts to
  // ------------------------------------------------------------------

  datatype Event = Command(text: string) | Group(name: string)

  /** A message without an attribute of the camera's name. */
  predicate Silent(message: seq<Token>) {
    forall t :: t in message && t.Attribute? ==> t.name != "rearview_camera"
  }

  predicate IsCamera(t: Token) {
    t.Attribute? && t.name == ATTRIBUTE
  }

  function EventOf(fd: Fd, text: string): Event {
    match fd case CommandFd => Command(text) case GroupFd => Group(text)
  }

  /** The camera attributes of a message from fd, up to a parse error. */
  function Published(fd: Fd, message: seq<Token>): seq<Event> {
    if message == [] || message[0].Error? then []
    else if IsCamera(message[0]) then [EventOf(fd, message[0].value)] + Published(fd, message[1..])
    else Published(fd, message[1..])
  }

  /** The second select only watches what the first one left in the descriptor set. */
  function CommandPart(r: Round): seq<Event> {
    if !r.failed1 && CommandFd in r.ready1 && r.nread1 > 0 then Published(CommandFd, r.message1) else []
  }

  predicate CommandPartEnds(r: Round) {
    r.failed1 || (CommandFd in r.ready1 && r.nread1 <= 0)
  }

  function GroupPart(r: Round): seq<Event> {
    if !r.failed2 && GroupFd in r.ready1 * r.ready2 && r.nread2 > 0 then Published(GroupFd, r.message2) else []
  }

  predicate GroupPartEnds(r: Round) {
    r.failed2 || (GroupFd in r.ready1 * r.ready2 && r.nread2 <= 0)
  }

  function EventsOf(rounds: seq<Round>): seq<Event> {
    if rounds == [] then []
    else
      var r := rounds[0];
      if CommandPartEnds(r) then []
      else if GroupPartEnds(r) then CommandPart(r)
      else CommandPart(r) + GroupPart(r) + EventsOf(rounds[1..])
  }

  // ------------------------------------------------------------------
  // One event
  // ------------------------------------------------------------------

  /** The globals of the tool, with the calls made to the screen library. */
  datatype Monitor = Monitor(
    cw: int, wg: int, visible: int, zorder: int, value: string,
    joins: seq<string>, shown: seq<int>)

  function Start(zorder: int): Monitor {
    Monitor(0, 0, 0, zorder, "", [], [])
  }

  function React(m: Monitor, e: Event, js: JoinResults): Monitor {
    match e
    case Command(text) =>
      if text == PAUSE then m.(cw := 0, visible := 0, shown := m.shown + [0])
      else m.(cw := 1, visible := 1, zorder := -1, shown := m.shown + [1])
    case Group(name) =>
      if m.value == name then m
      else
        var asked := m.(value := name, joins := m.joins + [name]);
        if js(|m.joins|) == 0 then asked.(cw := 0, wg := 1) else asked
  }

  function After(es: seq<Event>, zorder: int, js: JoinResults): Monitor {
    if es == [] then Start(zorder) else React(After(es[..|es| - 1], zorder, js), es[|es| - 1], js)
  }

  lemma AfterSnoc(es: seq<Event>, e: Event, zorder: int, js: JoinResults)
    ensures After(es + [e], zorder, js) == React(After(es, zorder, js), e, js)
  {
    assert (es + [e])[..|es|] == es;
  }

  // ------------------------------------------------------------------
  // thread_pps
  // ------------------------------------------------------------------

  class PpsThread {
    const joinResults: JoinResults
    var ppsCw: int
    var ppsWg: int
    var visible: int
    var zorder: int
    var value: string
    var joins: seq<string>
    var shown: seq<int>

    constructor (zorder: int, joinResults: JoinResults)
      ensures this.joinResults == joinResults && ReachedBy([], zorder)
      ensures State() == Monitor(0, 0, 0, zorder, "", [], [])
    {
      ppsCw, ppsWg, visible, value := 0, 0, 0, "";
      this.zorder, this.joinResults := zorder, joinResults;
      joins, shown := [], [];
    }

    function State(): Monitor
      reads this
    {
      Monitor(ppsCw, ppsWg, visible, zorder, value, joins, shown)
    }

    /** The state is the one that the events es lead to. */
    ghost predicate ReachedBy(es: seq<Event>, z: int)
      reads this
    {
      State() == After(es, z, joinResults)
    }

    /** Pausing hides the window; any other command shows it, with z-order -1. */
    method OnCommand(text: string)
      modifies this
      ensures State() == React(old(State()), Command(text), joinResults)
      ensures ppsWg == old(ppsWg) && value == old(value) && joins == old(joins)
      ensures text == "{\"action\": \"pause\"}" ==>
        ppsCw == 0 && visible == 0 && zorder == old(zorder) && shown == old(shown) + [0]
      ensures text != "{\"action\": \"pause\"}" ==>
        ppsCw == 1 && visible == 1 && zorder == -1 && shown == old(shown) + [1]
    {
      if text == PAUSE {
        ppsCw := 0;
        visible := 0;
        shown := shown + [visible];
      } else {
        ppsCw := 1;
        visible := 1;
        zorder := -1;
        shown := shown + [visible];
      }
    }

    /** A name other than the last one is remembered and joined. */
    method OnGroup(name: string)
      modifies this
      ensures State() == React(old(State()), Group(name), joinResults)
      ensures visible == old(visible) && zorder == old(zorder) && shown == old(shown) && value == name
      ensures name == old(value) ==> ppsCw == old(ppsCw) && ppsWg == old(ppsWg) && joins == old(joins)
      ensures name != old(value) ==>
        && joins == old(joins) + [name]
        && if joinResults(|old(joins)|) == 0 then ppsCw == 0 && ppsWg == 1
           else ppsCw == old(ppsCw) && ppsWg == old(ppsWg)
    {
      if value != name {
        value := name;
        var rc := joinResults(|joins|);
        joins := joins + [value];
        if rc == 0 {
          ppsCw := 0;
          ppsWg := 1;
        }
      }
    }

    /** The parse loop over one command message. */
    method ParseCommands(message: seq<Token>, ghost es: seq<Event>, ghost z: int)
      requires ReachedBy(es, z)
      modifies this
      ensures ReachedBy(es + Published(CommandFd, message), z)
    {
      var i := 0;
      ghost var goal, done := es + Published(CommandFd, message), es;
      assert message[0..] == message;
      while i < |message|
        invariant i <= |message| && ReachedBy(done, z)
        invariant goal == done + Published(CommandFd, message[i..])
      {
        PublishedStep(CommandFd, message, i, done);
        if IsCamera(message[i]) {
          AfterSnoc(done, Command(message[i].value), z, joinResults);
          OnCommand(message[i].value);
          done := done + [Command(message[i].value)];
        }
        if message[i].Error? {
          return;
        }
        i := i + 1;
      }
      assert goal == done;
    }

    /** The parse loop over one window group message. */
    method ParseGroups(message: seq<Token>, ghost es: seq<Event>, ghost z: int)
      requires ReachedBy(es, z)
      modifies this
      ensures ReachedBy(es + Published(GroupFd, message), z)
    {
      var i := 0;
      ghost var goal, done := es + Published(GroupFd, message), es;
      assert message[0..] == message;
      while i < |message|
        invariant i <= |message| && ReachedBy(done, z)
        invariant goal == done + Published(GroupFd, message[i..])
      {
        PublishedStep(GroupFd, message, i, done);
        if IsCamera(message[i]) {
          AfterSnoc(done, Group(message[i].value), z, joinResults);
          OnGroup(message[i].value);
          done := done + [Group(message[i].value)];
        }
        if message[i].Error? {
          return;
        }
        i := i + 1;
      }
      assert goal == done;
    }

    /** One round; stop is a break or a return. */
    method OneRound(r: Round, ghost es: seq<Event>, ghost z: int) returns (stop: bool)
      requires ReachedBy(es, z)
      modifies this
      ensures stop <==> CommandPartEnds(r) || GroupPartEnds(r)
      ensures ReachedBy(es + if CommandPartEnds(r) then [] else CommandPart(r) + GroupPart(r), z)
    {
      assert es + [] == es;
      var rfd := {CommandFd, GroupFd};
      if r.failed1 {
        return true;
      }
      rfd := rfd * r.ready1;
      if CommandFd in rfd {
        if r.nread1 <= 0 {
          return true;
        }
        ParseCommands(r.message1, es, z);
      }
      ghost var mid := es + CommandPart(r);
      assert mid + [] == mid && mid + GroupPart(r) == es + (CommandPart(r) + GroupPart(r));
      if r.failed2 {
        return true;
      }
      rfd := rfd * r.ready2;
      if GroupFd in rfd {
        if r.nread2 <= 0 {
          return true;
        }
        ParseGroups(r.message2, mid, z);
      }
      stop := false;
    }

    /** The event loop over any number of rounds. */
    method ThreadPps(rounds: seq<Round>, ghost z: int)
      requires ReachedBy([], z)
      modifies this
      ensures ReachedBy(EventsOf(rounds), z)
      ensures (forall r :: r in rounds ==> Silent(r.message1) && Silent(r.message2)) ==> State() == old(State())
    {
      if forall r :: r in rounds ==> Silent(r.message1) && Silent(r.message2) {
        NoEvents(rounds);
      }
      var i := 0;
      ghost var es: seq<Event> := [];
      assert rounds[0..] == rounds;
      while i < |rounds|
        invariant i <= |rounds| && ReachedBy(es, z)
        invariant EventsOf(rounds) == es + EventsOf(rounds[i..])
      {
        EventsStep(rounds, i, es);
        var stop := OneRound(rounds[i], es, z);
        es := es + if CommandPartEnds(rounds[i]) then [] else CommandPart(rounds[i]) + GroupPart(rounds[i]);
        if stop {
          return;
        }
        i := i + 1;
      }
      assert es + [] == es;
    }
  }

  // ------------------------------------------------------------------
  // What counts as an event
  // ------------------------------------------------------------------

  /** A message without a parse error publishes the values of exactly its attributes of the
      name "rearview_camera", in order: at lists their positions. */
  lemma {:induction false} PublishedAre(fd: Fd, message: seq<Token>) returns (at: seq<nat>)
    requires forall t :: t in message ==> !t.Error?
    ensures |Published(fd, message)| == |at|
    ensures forall k :: 0 <= k < |at| ==>
      && at[k] < |message| && message[at[k]].Attribute? && message[at[k]].name == "rearview_camera"
      && Published(fd, message)[k]
           == if fd == CommandFd then Command(message[at[k]].value) else Group(message[at[k]].value)
    ensures forall j, k :: 0 <= j < k < |at| ==> at[j] < at[k]
    ensures forall i :: 0 <= i < |message| && message[i].Attribute? && message[i].name == "rearview_camera" ==> i in at
  {
    if message == [] {
      at := [];
    } else {
      var n := |message| - 1;
      var prior, t := message[..n], message[n];
      at := PublishedAre(fd, prior);
      PublishedSnoc(fd, prior, t);
      assert message == prior + [t];
      if t.Attribute? && t.name == "rearview_camera" {
        at := at + [n];
      }
    }
  }

  lemma {:induction false} PublishedSnoc(fd: Fd, message: seq<Token>, t: Token)
    requires forall u :: u in message ==> !u.Error?
    ensures Published(fd, message + [t])
         == Published(fd, message) + if IsCamera(t) then [EventOf(fd, t.value)] else []
  {
    if message == [] {
      assert Published(fd, [t][1..]) == [];
    } else {
      assert message[0] in message && (message + [t])[1..] == message[1..] + [t];
      PublishedSnoc(fd, message[1..], t);
    }
  }

  /** Nothing behind a parse error is published. */
  lemma {:induction false} ErrorCuts(fd: Fd, before: seq<Token>, after: seq<Token>)
    ensures Published(fd, before + [Error] + after) == Published(fd, before)
  {
    var message := before + [Error] + after;
    if before == [] {
      assert message[0] == Error;
    } else {
      assert message[0] == before[0] && message[1..] == before[1..] + [Error] + after;
      ErrorCuts(fd, before[1..], after);
    }
  }

  /** A message without an attribute of that name publishes nothing, errors or not. */
  lemma {:induction false} NothingPublished(fd: Fd, message: seq<Token>)
    requires forall t :: t in message && t.Attribute? ==> t.name != "rearview_camera"
    ensures Published(fd, message) == []
  {
    if message != [] {
      assert message[0] in message;
      NothingPublished(fd, message[1..]);
    }
  }

  lemma {:induction false} NoEvents(rounds: seq<Round>)
    requires forall r :: r in rounds ==> Silent(r.message1) && Silent(r.message2)
    ensures EventsOf(rounds) == []
  {
    if rounds != [] {
      assert rounds[0] in rounds;
      NothingPublished(CommandFd, rounds[0].message1);
      NothingPublished(GroupFd, rounds[0].message2);
      NoEvents(rounds[1..]);
    }
  }

  /** One round, in the order of the code: each select may fail and end the loop, as does a read
      of nothing; the group message is read only if both selects found its descriptor ready. */
  lemma RoundEvents(r: Round, rounds: seq<Round>)
    ensures var command := if CommandFd in r.ready1 then Published(CommandFd, r.message1) else [];
      var both := GroupFd in r.ready1 && GroupFd in r.ready2;
      EventsOf([r] + rounds) ==
        if r.failed1 || (CommandFd in r.ready1 && r.nread1 <= 0) then []
        else if r.failed2 || (both && r.nread2 <= 0) then command
        else if both then command + Published(GroupFd, r.message2) + EventsOf(rounds)
        else command + EventsOf(rounds)
  {
    assert ([r] + rounds)[1..] == rounds;
    assert CommandPart(r) + [] == CommandPart(r);
  }

  lemma PublishedStep(fd: Fd, message: seq<Token>, i: nat, done: seq<Event>)
    requires i < |message|
    ensures var t, rest := message[i], Published(fd, message[i + 1..]);
      done + Published(fd, message[i..]) ==
        if t.Error? then done
        else if IsCamera(t) then done + [EventOf(fd, t.value)] + rest
        else done + rest
  {
    assert message[i..][1..] == message[i + 1..];
  }

  lemma EventsStep(rounds: seq<Round>, i: nat, es: seq<Event>)
    requires i < |rounds|
    ensures var r := rounds[i];
      es + EventsOf(rounds[i..]) ==
        if CommandPartEnds(r) then es + []
        else if GroupPartEnds(r) then es + (CommandPart(r) + GroupPart(r))
        else es + (CommandPart(r) + GroupPart(r)) + EventsOf(rounds[i + 1..])
  {
    var r := rounds[i];
    assert rounds[i..][1..] == rounds[i + 1..];
    if GroupPartEnds(r) {
      assert CommandPart(r) + GroupPart(r) == CommandPart(r);
    }
  }
}
