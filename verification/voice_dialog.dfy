/**
 The voice selection dialog as a state machine. `open` and `value` are the
 host's props: the dialog reports changes through `onOpenChange` and
 `onChange`, and the host feeds them straight back, so the model keeps them
 in the state. `search` is the dialog's own state. A closed dialog renders
 nothing, so no event reaches it.
 */
module VoiceDialog {
  import opened VoiceFilter

  datatype State = State(open: bool, value: string, search: string)

  /** What the user can do inside the open dialog. `CardClicked(i)` clicks the `i`-th shown card. */
  datatype Event =
    | SearchTyped(text: string)
    | CardClicked(index: nat)
    | OkPressed
    | ClosePressed

  /** One card of the grid: the voice and whether it carries the highlight and check mark. */
  datatype Card = Card(voice: Voice, highlighted: bool)

  /** The card grid plus the "No voices found." message. */
  datatype View = View(cards: seq<Card>, noVoicesFound: bool)

  /** What the open dialog shows for the catalog `voices` in state `s`. */
  function Render(voices: seq<Voice>, s: State): (v: View)
    ensures |v.cards| == |Filter(voices, s.search)|
    ensures forall i :: 0 <= i < |v.cards| ==> v.cards[i].voice == Filter(voices, s.search)[i]
    ensures forall i :: 0 <= i < |v.cards| ==> (v.cards[i].highlighted <==> v.cards[i].voice.id == s.value)
    ensures v.noVoicesFound <==> forall w :: w in voices ==> !Matches(w, s.search)
  {
    var shown := Filter(voices, s.search);
    assert |shown| > 0 ==> shown[0] in shown;
    View(seq(|shown|, i requires 0 <= i < |shown| => Card(shown[i], shown[i].id == s.value)), |shown| == 0)
  }

  /** The dialog's reaction to one event. */
  function Step(voices: seq<Voice>, s: State, e: Event): (t: State)
    ensures !s.open ==> t == s
    ensures t.open != s.open ==> (e.OkPressed? || e.ClosePressed?) && !t.open
    ensures s.open && (e.OkPressed? || e.ClosePressed?) ==> !t.open
    ensures t.search != s.search ==> e.SearchTyped?
    ensures s.open && e.SearchTyped? ==> t.search == e.text
    ensures t.value != s.value ==> e.CardClicked? && exists w :: w in voices && Matches(w, s.search) && w.id == t.value
    ensures s.open && e.CardClicked? && e.index < |Filter(voices, s.search)| ==>
      t.value == Filter(voices, s.search)[e.index].id
  {
    if !s.open then s
    else
      match e
      case SearchTyped(text) => s.(search := text)
      case CardClicked(i) =>
        var shown := Filter(voices, s.search);
        if i < |shown| then
          assert shown[i] in shown;
          s.(value := shown[i].id)
        else s
      case OkPressed => s.(open := false)
      case ClosePressed => s.(open := false)
  }

  /** The state after a sequence of events, applied in order. */
  function Run(voices: seq<Voice>, s: State, events: seq<Event>): State
    decreases |events|
  {
    if |events| == 0 then s else Run(voices, Step(voices, s, events[0]), events[1..])
  }

  /** True when no event of the sequence clicks a card. */
  predicate NoClicks(events: seq<Event>) {
    forall k :: 0 <= k < |events| ==> !events[k].CardClicked?
  }

  /** Typing, OK and close never change the host's selected voice. */
  lemma {:induction false} OnlyClicksSelect(voices: seq<Voice>, s: State, events: seq<Event>)
    requires NoClicks(events)
    ensures Run(voices, s, events).value == s.value
    decreases |events|
  {
    if |events| > 0 {
      assert NoClicks(events[1..]) by {
        forall k | 0 <= k < |events[1..]|
          ensures !events[1..][k].CardClicked?
        {
          assert events[1..][k] == events[k + 1];
        }
      }
      OnlyClicksSelect(voices, Step(voices, s, events[0]), events[1..]);
    }
  }

  /** A closed dialog stays closed and unchanged, whatever happens. */
  lemma {:induction false} ClosedStaysClosed(voices: seq<Voice>, s: State, events: seq<Event>)
    requires !s.open
    ensures Run(voices, s, events) == s
    decreases |events|
  {
    if |events| > 0 {
      ClosedStaysClosed(voices, s, events[1..]);
    }
  }

  /** Whatever the events, the host's selection is either the one it started with or the id of a catalog voice. */
  lemma {:induction false} SelectionFromCatalog(voices: seq<Voice>, s: State, events: seq<Event>)
    ensures var t := Run(voices, s, events);
      t.value == s.value || exists w :: w in voices && w.id == t.value
    decreases |events|
  {
    if |events| > 0 {
      var s' := Step(voices, s, events[0]);
      SelectionFromCatalog(voices, s', events[1..]);
    }
  }

  /** With unique ids, at most one shown card is highlighted. */
  lemma AtMostOneHighlighted(voices: seq<Voice>, s: State)
    requires UniqueIds(voices)
    ensures var cards := Render(voices, s).cards;
      forall i, j :: 0 <= i < |cards| && 0 <= j < |cards| && cards[i].highlighted && cards[j].highlighted ==> i == j
  {
    FilterKeepsUniqueIds(voices, s.search);
  }

  /** Clicking the `i`-th card moves the highlight to exactly that card and keeps the dialog open. */
  lemma ClickHighlightsCard(voices: seq<Voice>, s: State, i: nat)
    requires UniqueIds(voices)
    requires s.open && i < |Filter(voices, s.search)|
    ensures var t := Step(voices, s, CardClicked(i));
      var cards := Render(voices, t).cards;
      && t.open
      && cards[i].highlighted
      && forall j :: 0 <= j < |cards| && j != i ==> !cards[j].highlighted
  {
    FilterKeepsUniqueIds(voices, s.search);
  }
}
