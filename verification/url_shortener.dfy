/** The view state of the URL shortener screen and the handlers that change
    it, with the network, the timers and the confirmation dialog turned into
    explicit inputs and outputs. */
module UrlShortener {
  import opened Outcomes
  import opened Links

  /** The `messageType` of the status box; it starts out empty. */
  datatype Kind = Unset | Success | Error

  /** The five pieces of view state: the text in the input box, the records
      shown, whether a create is in flight, and the status message. */
  datatype ViewState = ViewState(input: string, urls: seq<Link>, loading: bool, message: string, kind: Kind)

  /** What a handler asks the outside world to do: a request to the server,
      or a timer that will later deliver an `Expire` event. */
  datatype Effect =
    | FetchAll
    | PostShorten(originalUrl: string)
    | DeleteByCode(shortCode: string)
    | ScheduleClear(delayMs: nat)

  /** A handler's result: the state it leaves and the effects it issued, in order. */
  datatype Step = Step(state: ViewState, effects: seq<Effect>)

  const CreatedText := "URL shortened successfully!"
  const CreateFailedText := "Error shortening URL!"
  const CopiedText := "Copied to clipboard!"
  const MissingCodeText := "Cannot delete: Short code is missing!"
  const DeletedText := "URL deleted successfully!"
  const DeleteFailedText := "Failed to delete URL!"

  /** Delays after which a message is cleared. */
  const LongDelayMs: nat := 3000
  const ShortDelayMs: nat := 2000

  /** The state on first render: empty input, empty list, no message. */
  const Initial := ViewState("", [], false, "", Unset)

  /** The message is empty, or it is one of the handlers' texts shown with
      the kind that handler gives it. */
  predicate Displayable(s: ViewState)
  {
    || s.message == ""
    || (s.kind == Success && s.message in {CreatedText, CopiedText, DeletedText})
    || (s.kind == Error && s.message in {CreateFailedText, MissingCodeText, DeleteFailedText})
  }

  /** A state between handlers: displayable, and no create in flight. */
  predicate AtRest(s: ViewState)
  {
    Displayable(s) && !s.loading
  }

  /** Show a message of the given kind. */
  function Post(s: ViewState, text: string, kind: Kind): (r: ViewState)
  {
    s.(message := text, kind := kind)
  }

  /** Loading the list: success replaces the whole list with the server's
      sequence in the server's order; failure is swallowed and leaves the
      state exactly as it was. */
  function FetchUrls(s: ViewState, listed: Outcome<seq<Link>>): (r: ViewState)
    ensures listed.Ok? ==> r.urls == listed.value
    ensures listed.Failed? ==> r == s
    ensures r.input == s.input && r.loading == s.loading
    ensures r.message == s.message && r.kind == s.kind
  {
    match listed
    case Ok(links) => s.(urls := links)
    case Failed => s
  }

  /** Typing into the input box. */
  function EditInput(s: ViewState, text: string): (r: ViewState)
    ensures r.input == text
    ensures r.urls == s.urls && r.loading == s.loading
    ensures r.message == s.message && r.kind == s.kind
  {
    s.(input := text)
  }

  /** The state while the create request is in flight: the button is
      disabled and the old message is hidden. */
  function Submitting(s: ViewState): (r: ViewState)
    ensures r.loading && r.message == ""
    ensures r.input == s.input && r.urls == s.urls && r.kind == s.kind
  {
    s.(loading := true, message := "")
  }

  /** Submitting the form. An empty input is ignored outright. Otherwise the
      create request is issued; success clears the input, reports success
      and asks for a reload; failure keeps the input and reports an error.
      Either way the button is enabled again and a clear is scheduled. */
  function HandleSubmit(s: ViewState, created: Outcome<()>): (r: Step)
    ensures s.input == "" ==> r == Step(s, [])
    ensures s.input != "" ==>
      && !r.state.loading
      && r.state.urls == s.urls
      && |r.effects| >= 2
      && r.effects[0] == PostShorten(s.input)
      && r.effects[|r.effects| - 1] == ScheduleClear(LongDelayMs)
    ensures s.input != "" && created.Ok? ==>
      && r.state.input == ""
      && r.state.message == CreatedText && r.state.kind == Success
      && r.effects == [PostShorten(s.input), FetchAll, ScheduleClear(LongDelayMs)]
    ensures s.input != "" && created.Failed? ==>
      && r.state.input == s.input
      && r.state.message == CreateFailedText && r.state.kind == Error
      && r.effects == [PostShorten(s.input), ScheduleClear(LongDelayMs)]
    ensures Displayable(s) ==> Displayable(r.state)
  {
    if s.input == "" then Step(s, [])
    else
      var busy := Submitting(s);
      var settled :=
        match created
        case Ok(_) => Post(EditInput(busy, ""), CreatedText, Success)
        case Failed => Post(busy, CreateFailedText, Error);
      var reload := if created.Ok? then [FetchAll] else [];
      Step(settled.(loading := false), [PostShorten(s.input)] + reload + [ScheduleClear(LongDelayMs)])
  }

  /** Pressing a row's Copy button: only the success message changes. */
  function CopyToClipboard(s: ViewState): (r: Step)
    ensures r.state.message == CopiedText && r.state.kind == Success
    ensures r.state.urls == s.urls && r.state.input == s.input && r.state.loading == s.loading
    ensures r.effects == [ScheduleClear(ShortDelayMs)]
  {
    Step(Post(s, CopiedText, Success), [ScheduleClear(ShortDelayMs)])
  }

  /** The short code is falsy in JavaScript: undefined or the empty string. */
  predicate MissingCode(code: Option<string>)
  {
    code.None? || code.value == ""
  }

  /** The first phase of a successful delete: the records with the deleted
      code are removed locally before the server is asked again. */
  function RemoveOptimistically(s: ViewState, code: string): (r: ViewState)
    ensures forall l :: l in r.urls ==> !HasCode(l, code)
    ensures forall l :: multiset(r.urls)[l] == if HasCode(l, code) then 0 else multiset(s.urls)[l]
    ensures IsSubsequence(r.urls, s.urls)
    ensures r.input == s.input && r.loading == s.loading
    ensures r.message == s.message && r.kind == s.kind
  {
    WithoutCounts(s.urls, code);
    WithoutKeepsOrder(s.urls, code);
    s.(urls := Without(s.urls, code))
  }

  /** Pressing a row's Delete button. A missing code reports an error and
      issues nothing. Declining the confirmation does nothing at all. A failed
      delete reports an error and keeps the list. A successful delete removes
      the records with the code, reports success, then reloads: a successful
      reload replaces the list, a failed one keeps the filtered list. */
  function DeleteUrl(s: ViewState, code: Option<string>, confirmed: bool,
                     deleted: Outcome<()>, reloaded: Outcome<seq<Link>>): (r: Step)
    ensures r.state.input == s.input && r.state.loading == s.loading
    ensures MissingCode(code) ==>
      && r.state.urls == s.urls
      && r.state.message == MissingCodeText && r.state.kind == Error
      && r.effects == [ScheduleClear(LongDelayMs)]
    ensures !MissingCode(code) && !confirmed ==> r == Step(s, [])
    ensures !MissingCode(code) && confirmed && deleted.Failed? ==>
      && r.state.urls == s.urls
      && r.state.message == DeleteFailedText && r.state.kind == Error
      && r.effects == [DeleteByCode(code.value), ScheduleClear(LongDelayMs)]
    ensures !MissingCode(code) && confirmed && deleted.Ok? ==>
      && r.state.message == DeletedText && r.state.kind == Success
      && r.effects == [DeleteByCode(code.value), FetchAll, ScheduleClear(ShortDelayMs)]
      && (reloaded.Ok? ==> r.state.urls == reloaded.value)
      && (reloaded.Failed? ==> r.state.urls == Without(s.urls, code.value))
    ensures Displayable(s) ==> Displayable(r.state)
  {
    if MissingCode(code) then
      Step(Post(s, MissingCodeText, Error), [ScheduleClear(LongDelayMs)])
    else if !confirmed then
      Step(s, [])
    else
      match deleted
      case Failed =>
        Step(Post(s, DeleteFailedText, Error), [DeleteByCode(code.value), ScheduleClear(LongDelayMs)])
      case Ok(_) =>
        var tentative := Post(RemoveOptimistically(s, code.value), DeletedText, Success);
        Step(FetchUrls(tentative, reloaded), [DeleteByCode(code.value), FetchAll, ScheduleClear(ShortDelayMs)])
  }

  /** A scheduled clear fires: it empties whatever message is showing now,
      whichever handler scheduled it, and changes nothing else. */
  function Expire(s: ViewState): (r: ViewState)
    ensures r.message == ""
    ensures r.input == s.input && r.urls == s.urls && r.loading == s.loading && r.kind == s.kind
  {
    s.(message := "")
  }

  /** Everything that can happen to the screen, with the outside world's
      answers attached. */
  datatype Event =
    | Loaded(listed: Outcome<seq<Link>>)
    | Typed(text: string)
    | Submitted(created: Outcome<()>)
    | Copied
    | DeleteClicked(code: Option<string>, confirmed: bool, deleted: Outcome<()>, reloaded: Outcome<seq<Link>>)
    | Expired

  /** The state after one event. */
  function Apply(s: ViewState, e: Event): (r: ViewState)
    ensures AtRest(s) ==> AtRest(r)
  {
    match e
    case Loaded(listed) => FetchUrls(s, listed)
    case Typed(text) => EditInput(s, text)
    case Submitted(created) => HandleSubmit(s, created).state
    case Copied => CopyToClipboard(s).state
    case DeleteClicked(code, confirmed, deleted, reloaded) => DeleteUrl(s, code, confirmed, deleted, reloaded).state
    case Expired => Expire(s)
  }

  /** The state after a sequence of events, applied in order. */
  function Run(s: ViewState, events: seq<Event>): (r: ViewState)
    decreases |events|
  {
    if events == [] then s else Run(Apply(s, events[0]), events[1..])
  }

  /** Between handlers the button is always enabled and the message always
      matches its kind, from the first render on, whatever happens. */
  lemma {:induction false} RunStaysAtRest(s: ViewState, events: seq<Event>)
    requires AtRest(s)
    ensures AtRest(Run(s, events))
    decreases |events|
  {
    if events != [] {
      RunStaysAtRest(Apply(s, events[0]), events[1..]);
    }
  }

  /** Every list the server delivers within the event has unique ids. */
  predicate ServerListsUnique(e: Event)
  {
    match e
    case Loaded(Ok(links)) => UniqueIds(links)
    case DeleteClicked(_, _, _, Ok(links)) => UniqueIds(links)
    case _ => true
  }

  /** One event keeps the ids of the shown list unique, provided the server
      sent no duplicate ids. */
  lemma ApplyKeepsUniqueIds(s: ViewState, e: Event)
    requires UniqueIds(s.urls) && ServerListsUnique(e)
    ensures UniqueIds(Apply(s, e).urls)
  {
    match e
    case DeleteClicked(code, confirmed, deleted, reloaded) =>
      if !MissingCode(code) && confirmed && deleted.Ok? && reloaded.Failed? {
        WithoutKeepsUniqueIds(s.urls, code.value);
      }
    case _ =>
  }

  /** The shown list never holds two records with the same id, the row key,
      as long as every list the server sends has unique ids. */
  lemma {:induction false} RunKeepsUniqueIds(s: ViewState, events: seq<Event>)
    requires UniqueIds(s.urls)
    requires forall i :: 0 <= i < |events| ==> ServerListsUnique(events[i])
    ensures UniqueIds(Run(s, events).urls)
    decreases |events|
  {
    if events != [] {
      ApplyKeepsUniqueIds(s, events[0]);
      assert forall i :: 0 <= i < |events[1..]| ==> ServerListsUnique(events[1..][i]) by {
        forall i | 0 <= i < |events[1..]| ensures ServerListsUnique(events[1..][i]) {
          assert events[1..][i] == events[i + 1];
        }
      }
      RunKeepsUniqueIds(Apply(s, events[0]), events[1..]);
    }
  }

  /** The initial state is at rest, so every reachable state is. */
  lemma ReachableStatesAtRest(events: seq<Event>)
    ensures AtRest(Run(Initial, events))
  {
    RunStaysAtRest(Initial, events);
  }

  /** A create request is issued exactly when the input is non-empty. */
  lemma SubmitRequestsCreateIffInput(s: ViewState, created: Outcome<()>)
    ensures (exists i :: 0 <= i < |HandleSubmit(s, created).effects| && HandleSubmit(s, created).effects[i].PostShorten?)
            <==> s.input != ""
  {
    var r := HandleSubmit(s, created);
    if s.input != "" {
      assert r.effects[0].PostShorten?;
    }
  }

  /** A delete request is issued only with a present, non-empty code, only
      after confirmation, and then for exactly that code. */
  lemma DeleteRequestNeedsCodeAndConfirmation(s: ViewState, code: Option<string>, confirmed: bool,
                                              deleted: Outcome<()>, reloaded: Outcome<seq<Link>>)
    ensures forall e :: e in DeleteUrl(s, code, confirmed, deleted, reloaded).effects && e.DeleteByCode? ==>
      !MissingCode(code) && confirmed && e.shortCode == code.value
  {
  }

  /** After a successful delete the deleted code is gone from the list, both
      right after the optimistic removal and after the reload, as long as the
      server's list does not contain it either. */
  lemma DeletedCodeStaysAbsent(s: ViewState, code: string, deleted: Outcome<()>, reloaded: Outcome<seq<Link>>)
    requires code != "" && deleted.Ok?
    requires reloaded.Ok? ==> forall l :: l in reloaded.value ==> !HasCode(l, code)
    ensures forall l :: l in DeleteUrl(s, Some(code), true, deleted, reloaded).state.urls ==> !HasCode(l, code)
  {
  }

  /** Because the reload after a delete swallows its own failure, a failed
      reload leaves the optimistically filtered list and the success message. */
  lemma FailedReloadKeepsOptimisticList(s: ViewState, code: string)
    requires code != ""
    ensures var r := DeleteUrl(s, Some(code), true, Ok(()), Failed).state;
      && r.urls == Without(s.urls, code)
      && IsSubsequence(r.urls, s.urls)
      && r.message == DeletedText && r.kind == Success
  {
    WithoutKeepsOrder(s.urls, code);
  }

  /** Records as the server stores them have no short code, so every row's
      Delete button only ever reports the missing code and sends nothing. */
  lemma CodelessRowsCannotBeDeleted(s: ViewState, i: nat, confirmed: bool,
                                    deleted: Outcome<()>, reloaded: Outcome<seq<Link>>)
    requires i < |s.urls|
    requires forall l :: l in s.urls ==> l.shortCode.None?
    ensures var r := DeleteUrl(s, s.urls[i].shortCode, confirmed, deleted, reloaded);
      && r.state.urls == s.urls
      && r.state.message == MissingCodeText && r.state.kind == Error
      && forall e :: e in r.effects ==> !e.DeleteByCode?
  {
    assert s.urls[i] in s.urls;
  }

  /** A clear scheduled by an earlier handler also wipes a newer message: a
      failed create schedules its clear, a copy then shows its own message,
      and any clear firing after the copy, the create's included, empties it. */
  lemma StaleClearWipesNewerMessage(s: ViewState)
    requires s.input != ""
    ensures var afterCreate := HandleSubmit(s, Failed);
      var afterCopy := CopyToClipboard(afterCreate.state);
      && afterCreate.effects[|afterCreate.effects| - 1] == ScheduleClear(LongDelayMs)
      && afterCopy.state.message == CopiedText
      && Expire(afterCopy.state).message == ""
  {
  }

  /** Deleting the only record, with confirmation and the server agreeing,
      empties the list, reports success and asks for a reload. */
  lemma DeleteOnlyRecordScenario(original: string, short: string, reloaded: Outcome<seq<Link>>)
    requires reloaded.Failed? || reloaded == Ok([])
    ensures var s := Initial.(urls := [Link(1, original, short, Some("abc"))]);
      var r := DeleteUrl(s, Some("abc"), true, Ok(()), reloaded);
      && r.state.urls == []
      && r.state.message == DeletedText && r.state.kind == Success
      && r.effects == [DeleteByCode("abc"), FetchAll, ScheduleClear(ShortDelayMs)]
  {
  }

  /** Submitting an empty input issues nothing and changes nothing. */
  lemma EmptySubmitScenario(created: Outcome<()>)
    ensures HandleSubmit(Initial, created) == Step(Initial, [])
  {
  }

  /** A failed create of a real URL keeps the input, reports the error and
      enables the button again. */
  lemma FailedCreateScenario()
    ensures var r := HandleSubmit(Initial.(input := "http://x.com"), Failed).state;
      && r.input == "http://x.com"
      && r.message == CreateFailedText && r.kind == Error
      && !r.loading
  {
  }
}
