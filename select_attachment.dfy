/** The attachment chooser used by the audio commands: with several
    attachments it shows one button per attachment and waits until the
    invoking user presses one or the collector stops. */
module SelectAttachment {
  import opened Wrappers
  import Decimal
  import Rows

  type UserId = string

  datatype Attachment = Attachment(id: string, filename: string, url: string)

  /** A secondary-style button of the chooser. */
  datatype ChooserButton = ChooserButton(text: string, customId: string)

  /** What the promise settles to: `null`, the string `"idle"`, or an attachment. */
  datatype Selection = Nothing | Idle | Picked(attachment: Attachment)

  /** A promise is pending until its first `resolve` call. */
  datatype Status = Pending | Resolved(selection: Selection)

  /** Events the collector delivers: a button press, or the collector stopping
      with a reason (the idle timer stops it with reason "idle"). */
  datatype Event = Pressed(actor: UserId, customId: string) | Stopped(reason: string)

  /** The message edits the chooser makes once it is showing. Both carry an
      empty list of components, which removes the buttons. */
  datatype Edit = Edit(title: string, description: string, components: seq<seq<ChooserButton>>)

  const IdPrefix: string := "selectAttachment:"
  const IdleReason: string := "idle"
  /** The reason the framework passes to `onStop` after `collector.stop()`;
      the framework is not part of this model, all that matters is that it is
      not "idle". */
  const ManualStopReason: string := "stop"

  function TimeoutEdit(): Edit {
    Edit("Timeout", "You took too long to select an attachment.", [])
  }

  function SelectedEdit(filename: string): Edit {
    Edit("Attachment Selected", "Processing attachment: `" + filename + "`", [])
  }

  function CustomId(i: nat): string {
    IdPrefix + Decimal.Show(i)
  }

  function Label(i: nat, filename: string): string {
    Decimal.Show(i + 1) + ". " + filename
  }

  /** The buttons the chooser shows, button i for attachment i. */
  function Buttons(attachments: seq<Attachment>): seq<ChooserButton> {
    seq(|attachments|, i requires 0 <= i < |attachments| =>
      ChooserButton(Label(i, attachments[i].filename), CustomId(i)))
  }

  /** The ids a press handler is registered under, one per attachment. */
  function HandlerIds(n: nat): seq<string> {
    seq(n, i requires 0 <= i < n => CustomId(i))
  }

  /** Reads the attachment index back out of a custom id. */
  function ParseCustomId(id: string): Option<nat>
  {
    if |id| > |IdPrefix| && id[..|IdPrefix|] == IdPrefix && Decimal.AllDigits(id[|IdPrefix|..])
    then Some(Decimal.Parse(id[|IdPrefix|..]))
    else None
  }

  /** The handler a press reaches: the first one registered under its id. */
  function HandlerIndex(ids: seq<string>, id: string): (r: Option<nat>)
    ensures r.Some? ==> r.value < |ids| && ids[r.value] == id &&
                        forall j :: 0 <= j < r.value ==> ids[j] != id
    ensures r.None? ==> id !in ids
  {
    if ids == [] then None
    else if ids[0] == id then Some(0)
    else match HandlerIndex(ids[1..], id)
      case None => None
      case Some(j) => Some(j + 1)
  }

  /** A button's custom id names its attachment index. */
  lemma CustomIdRoundTrip(i: nat)
    ensures ParseCustomId(CustomId(i)) == Some(i)
  {
    var id := CustomId(i);
    assert id[..|IdPrefix|] == IdPrefix;
    assert id[|IdPrefix|..] == Decimal.Show(i);
    Decimal.ParseShow(i);
  }

  /** The chooser has one button per attachment, labelled "{i+1}. {filename}",
      and no two buttons share a custom id. */
  lemma ButtonsWellFormed(attachments: seq<Attachment>)
    ensures |Buttons(attachments)| == |attachments|
    ensures forall i :: 0 <= i < |attachments| ==>
      Buttons(attachments)[i].text == Decimal.Show(i + 1) + ". " + attachments[i].filename &&
      ParseCustomId(Buttons(attachments)[i].customId) == Some(i)
    ensures forall i, j :: 0 <= i < j < |attachments| ==>
      Buttons(attachments)[i].customId != Buttons(attachments)[j].customId
  {
    forall i | 0 <= i < |attachments|
      ensures ParseCustomId(Buttons(attachments)[i].customId) == Some(i)
    {
      CustomIdRoundTrip(i);
    }
  }

  /** A press on button i reaches the handler of attachment i. */
  lemma HandlerOfButton(n: nat, i: nat)
    requires i < n
    ensures HandlerIndex(HandlerIds(n), CustomId(i)) == Some(i)
  {
    var ids := HandlerIds(n);
    var r := HandlerIndex(ids, CustomId(i));
    assert ids[i] == CustomId(i);
    var j := r.value;
    CustomIdRoundTrip(i);
    CustomIdRoundTrip(j);
    assert ids[j] == CustomId(j);
  }

  /** The first decisive event settles the outcome: a press by the invoking
      user on a registered button picks that attachment, a stop gives "idle"
      for the idle reason and `null` otherwise; every other event is ignored. */
  function Decide(attachments: seq<Attachment>, requester: UserId, events: seq<Event>): Status {
    if events == [] then Pending
    else match events[0]
      case Stopped(reason) =>
        Resolved(if reason == IdleReason then Idle else Nothing)
      case Pressed(actor, id) =>
        var h := HandlerIndex(HandlerIds(|attachments|), id);
        if actor == requester && h.Some? then Resolved(Picked(attachments[h.value]))
        else Decide(attachments, requester, events[1..])
  }

  /** The edits made to the chooser message by the time the promise settles. */
  function EditsFor(s: Status): seq<Edit> {
    match s
    case Resolved(Idle) => [TimeoutEdit()]
    case Resolved(Picked(a)) => [SelectedEdit(a.filename)]
    case _ => []
  }

  /** Once an outcome is settled, later events do not change it. */
  lemma {:induction false} DecideAppend(attachments: seq<Attachment>, requester: UserId, a: seq<Event>, b: seq<Event>)
    ensures Decide(attachments, requester, a + b) ==
      if Decide(attachments, requester, a).Resolved? then Decide(attachments, requester, a)
      else Decide(attachments, requester, b)
  {
    if a == [] {
      assert a + b == b;
    } else {
      assert (a + b)[0] == a[0];
      assert (a + b)[1..] == a[1..] + b;
      DecideAppend(attachments, requester, a[1..], b);
    }
  }

  /** The first press by the invoking user before any stop picks its attachment,
      whatever comes after it. */
  lemma FirstPressWins(attachments: seq<Attachment>, requester: UserId, before: seq<Event>, i: nat, after: seq<Event>)
    requires i < |attachments|
    requires Decide(attachments, requester, before) == Pending
    ensures Decide(attachments, requester, before + [Pressed(requester, CustomId(i))] + after)
      == Resolved(Picked(attachments[i]))
  {
    HandlerOfButton(|attachments|, i);
    DecideAppend(attachments, requester, before, [Pressed(requester, CustomId(i))] + after);
    assert before + [Pressed(requester, CustomId(i))] + after == before + ([Pressed(requester, CustomId(i))] + after);
  }

  /** An idle stop with no earlier press settles to "idle", not `null`, and a
      late press cannot turn it into a selection. */
  lemma IdleStopGivesIdle(attachments: seq<Attachment>, requester: UserId, before: seq<Event>, after: seq<Event>)
    requires Decide(attachments, requester, before) == Pending
    ensures Decide(attachments, requester, before + [Stopped(IdleReason)] + after) == Resolved(Idle)
  {
    DecideAppend(attachments, requester, before, [Stopped(IdleReason)] + after);
    assert before + [Stopped(IdleReason)] + after == before + ([Stopped(IdleReason)] + after);
  }

  /** The events that pass the collector's filter. */
  function FromRequester(requester: UserId, events: seq<Event>): seq<Event> {
    if events == [] then []
    else if events[0].Pressed? && events[0].actor != requester then FromRequester(requester, events[1..])
    else [events[0]] + FromRequester(requester, events[1..])
  }

  /** Presses by anyone but the invoking user never change the outcome. */
  lemma {:induction false} OthersIgnored(attachments: seq<Attachment>, requester: UserId, events: seq<Event>)
    ensures Decide(attachments, requester, FromRequester(requester, events)) == Decide(attachments, requester, events)
  {
    if events != [] {
      OthersIgnored(attachments, requester, events[1..]);
      if !(events[0].Pressed? && events[0].actor != requester) {
        assert ([events[0]] + FromRequester(requester, events[1..]))[1..] == FromRequester(requester, events[1..]);
      }
    }
  }

  /** One chooser session: the state behind the promise and the collector. */
  class Session {
    const attachments: seq<Attachment>
    const requester: UserId
    const handlerIds: seq<string>
    var status: Status
    var listening: bool
    var edits: seq<Edit>

    /** The collector listens exactly while the promise is pending, and the
        message has been edited exactly once if and only if the promise
        settled to a selection or to "idle". */
    ghost predicate Valid()
      reads this
    {
      handlerIds == HandlerIds(|attachments|) &&
      (listening <==> status.Pending?) &&
      edits == EditsFor(status)
    }

    /** Starts the collector and registers one press handler per attachment. */
    constructor (attachments: seq<Attachment>, requester: UserId)
      ensures Valid()
      ensures this.attachments == attachments && this.requester == requester
      ensures status == Pending && listening && edits == []
    {
      this.attachments := attachments;
      this.requester := requester;
      this.handlerIds := HandlerIds(|attachments|);
      status := Pending;
      listening := true;
      edits := [];
    }

    /** The promise's `resolve`: only the first call has an effect. */
    method Resolve(s: Selection)
      modifies this`status
      ensures status == if old(status).Pending? then Resolved(s) else old(status)
    {
      if status.Pending? {
        status := Resolved(s);
      }
    }

    /** `onStop`: on an idle stop show the timeout notice and resolve "idle";
        in every case then resolve `null`. */
    method OnStop(reason: string)
      modifies this`status, this`edits
      ensures edits == old(edits) + (if reason == IdleReason then [TimeoutEdit()] else [])
      ensures status == if old(status).Resolved? then old(status)
                        else Resolved(if reason == IdleReason then Idle else Nothing)
    {
      if reason == IdleReason {
        edits := edits + [TimeoutEdit()];
        Resolve(Idle);
      }
      Resolve(Nothing);
    }

    /** The collector stops (for the idle timer, with reason "idle"); a
        collector that has already stopped does not stop again. */
    method Stop(reason: string)
      requires Valid()
      modifies this`status, this`edits, this`listening
      ensures Valid()
      ensures status == if old(status).Pending? then Decide(attachments, requester, [Stopped(reason)]) else old(status)
    {
      if listening {
        listening := false;
        OnStop(reason);
      }
    }

    /** A button press. The filter drops presses by other users; the handler
        resolves with its attachment, stops the collector (whose `onStop`
        then resolves `null` to no effect) and edits the message. */
    method Press(actor: UserId, id: string)
      requires Valid()
      modifies this`status, this`edits, this`listening
      ensures Valid()
      ensures status == if old(status).Pending? && Decide(attachments, requester, [Pressed(actor, id)]).Resolved?
                        then Decide(attachments, requester, [Pressed(actor, id)]) else old(status)
      ensures actor != requester ==> status == old(status) && edits == old(edits) && listening == old(listening)
    {
      if listening && actor == requester {
        var h := HandlerIndex(handlerIds, id);
        if h.Some? {
          var i := h.value;
          Resolve(Picked(attachments[i]));
          listening := false;
          OnStop(ManualStopReason);
          edits := edits + [SelectedEdit(attachments[i].filename)];
        }
      }
    }
  }

  /** `selectAttachment`: no attachment gives `null`, one gives that
      attachment without showing anything, and several show the chooser
      and settle on the first decisive event. `chooser` is the rows shown. */
  method SelectAttachment(attachments: seq<Attachment>, requester: UserId, events: seq<Event>)
    returns (r: Status, chooser: Option<seq<seq<ChooserButton>>>, edits: seq<Edit>)
    ensures |attachments| == 0 ==> r == Resolved(Nothing) && chooser == None && edits == []
    ensures |attachments| == 1 ==> r == Resolved(Picked(attachments[0])) && chooser == None && edits == []
    ensures |attachments| >= 2 ==>
      chooser == Some(Rows.Chunks(Buttons(attachments))) &&
      r == Decide(attachments, requester, events) &&
      edits == EditsFor(r)
  {
    if |attachments| == 0 {
      return Resolved(Nothing), None, [];
    } else if |attachments| == 1 {
      return Resolved(Picked(attachments[0])), None, [];
    }
    var buttons := BuildButtons(attachments);
    var rows := Rows.ChunkRows(buttons);
    chooser := Some(rows);
    var session := new Session(attachments, requester);
    var k := 0;
    while k < |events|
      invariant k <= |events|
      invariant session.Valid()
      invariant session.attachments == attachments && session.requester == requester
      invariant (if session.status.Resolved? then session.status else Decide(attachments, requester, events[k..]))
                == Decide(attachments, requester, events)
    {
      assert events[k..][1..] == events[k + 1..];
      match events[k] {
        case Pressed(actor, id) => session.Press(actor, id);
        case Stopped(reason) => session.Stop(reason);
      }
      k := k + 1;
    }
    r := session.status;
    edits := session.edits;
  }

  /** The button loop: button i is labelled "{i+1}. {filename}" and carries
      the custom id "selectAttachment:{i}". */
  method BuildButtons(attachments: seq<Attachment>) returns (buttons: seq<ChooserButton>)
    ensures buttons == Buttons(attachments)
  {
    buttons := [];
    for i := 0 to |attachments|
      invariant buttons == Buttons(attachments[..i])
    {
      buttons := buttons + [ChooserButton(Label(i, attachments[i].filename), CustomId(i))];
    }
    assert attachments[..|attachments|] == attachments;
  }
}
