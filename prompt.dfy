/**
  The grounding text of the chat endpoint: a fixed template filled with the
  event record, the itinerary and the checklist, with fixed fallbacks for
  unset fields and empty lists.
 */
module Prompt {
  import opened Wrappers
  import opened Strings
  import opened Tables
  import opened Records

  const DEFAULT_TITLE := "PM Mastermind"
  const NO_ITINERARY := "No itinerary items yet."
  const NO_CHECKLIST := "No checklist items yet."

  /** `event?.title || "PM Mastermind"`. */
  function EventTitle(event: Option<EventInfo>): (r: string)
    ensures r != ""
    ensures event.Some? && event.value.title != "" ==> r == event.value.title
  {
    if event.Some? && event.value.title != "" then event.value.title else DEFAULT_TITLE
  }

  /** `event?.<field> || fallback` for a nullable column. */
  function FieldOr(event: Option<EventInfo>, field: EventInfo -> Option<string>, fallback: string): string {
    OrElse(if event.Some? then field(event.value) else None, fallback)
  }

  /** `prefix + value + suffix` when the nullable `value` is truthy, and nothing otherwise. */
  function IfSet(prefix: string, value: Option<string>, suffix: string): string {
    if value.Some? && value.value != "" then prefix + value.value + suffix else ""
  }

  /** The labelled block of event fields. */
  function EventBlock(event: Option<EventInfo>): string {
    "- Title: " + EventTitle(event)
    + "\n- Date: " + FieldOr(event, (e: EventInfo) => e.eventDate, "TBD")
    + "\n- Time: " + FieldOr(event, (e: EventInfo) => e.eventTime, "TBD")
    + "\n- Venue: " + FieldOr(event, (e: EventInfo) => e.venueName, "TBD")
    + "\n- Location: " + FieldOr(event, (e: EventInfo) => e.location, "TBD")
    + "\n- Description: " + FieldOr(event, (e: EventInfo) => e.description, "No description yet")
    + "\n- Notes: " + FieldOr(event, (e: EventInfo) => e.additionalNotes, "None")
  }

  /** One itinerary line: `- <start or "">[ - <end>]: <title>[ (<description>)]`. */
  function ItineraryLine(item: ItineraryItem): (r: string)
    ensures |r| >= 2 && r[..2] == "- "
  {
    "- " + EmptyIfNull(item.fields.startTime) + IfSet(" - ", item.fields.endTime, "")
    + ": " + item.fields.title + IfSet(" (", item.fields.description, ")")
  }

  /** One checklist line: `- <title>[: <description>]`. */
  function ChecklistLine(item: ChecklistItem): (r: string)
    ensures |r| >= 2 && r[..2] == "- "
  {
    "- " + item.fields.title + IfSet(": ", item.fields.description, "")
  }

  /** `itinerary.map(...)`: one line per item, in item order. */
  function ItineraryLines(items: seq<ItineraryItem>): (r: seq<string>)
    ensures |r| == |items| && forall i :: 0 <= i < |items| ==> r[i] == ItineraryLine(items[i])
  {
    if items == [] then [] else [ItineraryLine(items[0])] + ItineraryLines(items[1..])
  }

  /** `checklist.map(...)`: one line per item, in item order. */
  function ChecklistLines(items: seq<ChecklistItem>): (r: seq<string>)
    ensures |r| == |items| && forall i :: 0 <= i < |items| ==> r[i] == ChecklistLine(items[i])
  {
    if items == [] then [] else [ChecklistLine(items[0])] + ChecklistLines(items[1..])
  }

  /** A join of lines that each start with "- " starts with '-'. */
  lemma JoinStartsWithDash(lines: seq<string>)
    requires lines != [] && forall i :: 0 <= i < |lines| ==> |lines[i]| >= 2 && lines[i][..2] == "- "
    ensures |Join(lines, "\n")| >= 1 && Join(lines, "\n")[0] == '-'
  {
    assert lines[0][0] == lines[0][..2][0];
    if |lines| > 1 {
      assert Join(lines, "\n") == lines[0] + "\n" + Join(lines[1..], "\n");
    }
  }

  /** The itinerary block: the lines joined by newlines, or the empty-list sentence. */
  function ItineraryBlock(items: seq<ItineraryItem>): (r: string)
    ensures r == NO_ITINERARY <==> items == []
  {
    if |items| > 0 then
      var lines := ItineraryLines(items);
      JoinStartsWithDash(lines);
      Join(lines, "\n")
    else NO_ITINERARY
  }

  /** The checklist block: the lines joined by newlines, or the empty-list sentence. */
  function ChecklistBlock(items: seq<ChecklistItem>): (r: string)
    ensures r == NO_CHECKLIST <==> items == []
  {
    if |items| > 0 then
      var lines := ChecklistLines(items);
      JoinStartsWithDash(lines);
      Join(lines, "\n")
    else NO_CHECKLIST
  }

  function Preamble(event: Option<EventInfo>): string {
    "You are a helpful AI assistant for the \"" + EventTitle(event)
    + "\" event. You help attendees with questions about the event."
  }

  const CLOSING := "Be friendly, concise, and helpful. If you don't know something about the event, say so honestly."

  /** Everything after the first sentence. */
  function Sections(event: Option<EventInfo>, itinerary: seq<ItineraryItem>, checklist: seq<ChecklistItem>): string {
    "\n\nHere is the event information:\n" + EventBlock(event)
    + "\n\nItinerary:\n" + ItineraryBlock(itinerary)
    + "\n\nPre-event checklist items:\n" + ChecklistBlock(checklist)
    + "\n\n" + CLOSING
  }

  /** The whole system prompt. */
  function SystemPrompt(event: Option<EventInfo>, itinerary: seq<ItineraryItem>, checklist: seq<ChecklistItem>): string {
    Preamble(event) + Sections(event, itinerary, checklist)
  }

  // ---------------------------------------------------------------------------
  // Properties of the rendering

  /** No field of the record is set: no event row, or only empty values. */
  predicate Unset(event: Option<EventInfo>) {
    event.Some? ==>
      var e := event.value;
      && e.title == ""
      && OrElse(e.eventDate, "") == "" && OrElse(e.eventTime, "") == ""
      && OrElse(e.venueName, "") == "" && OrElse(e.location, "") == ""
      && OrElse(e.description, "") == "" && OrElse(e.additionalNotes, "") == ""
  }

  /** With nothing set, every field shows its fallback text. */
  lemma UnsetEventFallbacks(event: Option<EventInfo>)
    requires Unset(event)
    ensures EventBlock(event) ==
      "- Title: " + "PM Mastermind" + "\n- Date: " + "TBD" + "\n- Time: " + "TBD"
      + "\n- Venue: " + "TBD" + "\n- Location: " + "TBD"
      + "\n- Description: " + "No description yet" + "\n- Notes: " + "None"
  {
    assert EventTitle(event) == DEFAULT_TITLE;
    assert FieldOr(event, (e: EventInfo) => e.eventDate, "TBD") == "TBD";
    assert FieldOr(event, (e: EventInfo) => e.eventTime, "TBD") == "TBD";
    assert FieldOr(event, (e: EventInfo) => e.venueName, "TBD") == "TBD";
    assert FieldOr(event, (e: EventInfo) => e.location, "TBD") == "TBD";
    assert FieldOr(event, (e: EventInfo) => e.description, "No description yet") == "No description yet";
    assert FieldOr(event, (e: EventInfo) => e.additionalNotes, "None") == "None";
  }

  /** Any set field is shown as stored, whatever its fallback; an unset one shows the fallback. */
  lemma SetFieldShown(event: Option<EventInfo>, field: EventInfo -> Option<string>, fallback: string)
    ensures event.Some? && field(event.value).Some? && field(event.value).value != "" ==>
      FieldOr(event, field, fallback) == field(event.value).value
    ensures (event.None? || field(event.value).None? || field(event.value).value == "") ==>
      FieldOr(event, field, fallback) == fallback
  {
  }

  /** No rendered itinerary line breaks in two: none of the item's texts holds a newline. */
  predicate ItineraryItemOneLine(item: ItineraryItem) {
    && '\n' !in EmptyIfNull(item.fields.startTime) && '\n' !in EmptyIfNull(item.fields.endTime)
    && '\n' !in item.fields.title && '\n' !in EmptyIfNull(item.fields.description)
  }

  predicate ChecklistItemOneLine(item: ChecklistItem) {
    '\n' !in item.fields.title && '\n' !in EmptyIfNull(item.fields.description)
  }

  lemma ItineraryLineOneLine(item: ItineraryItem)
    requires ItineraryItemOneLine(item)
    ensures '\n' !in ItineraryLine(item)
  {
  }

  /** A checklist item whose texts hold no newline renders as a single line. */
  lemma ChecklistLineOneLine(item: ChecklistItem)
    requires ChecklistItemOneLine(item)
    ensures '\n' !in ChecklistLine(item)
  {
  }

  /** Items whose texts hold no newline render as lines that hold none. */
  lemma ItineraryLinesOneLine(items: seq<ItineraryItem>)
    requires forall item :: item in items ==> ItineraryItemOneLine(item)
    ensures forall i :: 0 <= i < |items| ==> '\n' !in ItineraryLines(items)[i]
  {
    forall i | 0 <= i < |items| ensures '\n' !in ItineraryLines(items)[i] {
      ItineraryLineOneLine(items[i]);
    }
  }

  /**
    Read back line by line, a non-empty itinerary block is its items' lines in
    order, one line per item.
   */
  lemma ItineraryBlockLines(items: seq<ItineraryItem>)
    requires items != []
    requires forall item :: item in items ==> ItineraryItemOneLine(item)
    ensures Split(ItineraryBlock(items), "\n") == ItineraryLines(items)
  {
    ItineraryLinesOneLine(items);
    SplitJoinOf(ItineraryBlock(items), ItineraryLines(items), '\n');
  }

  /** Items whose texts hold no newline render as lines that hold none. */
  lemma ChecklistLinesOneLine(items: seq<ChecklistItem>)
    requires forall item :: item in items ==> ChecklistItemOneLine(item)
    ensures forall i :: 0 <= i < |items| ==> '\n' !in ChecklistLines(items)[i]
  {
    forall i | 0 <= i < |items| ensures '\n' !in ChecklistLines(items)[i] {
      ChecklistLineOneLine(items[i]);
    }
  }

  /**
    Read back line by line, a non-empty checklist block is its items' lines in
    order, one line per item.
   */
  lemma ChecklistBlockLines(items: seq<ChecklistItem>)
    requires items != []
    requires forall item :: item in items ==> ChecklistItemOneLine(item)
    ensures Split(ChecklistBlock(items), "\n") == ChecklistLines(items)
  {
    ChecklistLinesOneLine(items);
    SplitJoinOf(ChecklistBlock(items), ChecklistLines(items), '\n');
  }

  /** The prompt names the event by its title, in quotes, in its first sentence. */
  lemma PromptNamesEvent(event: Option<EventInfo>, itinerary: seq<ItineraryItem>, checklist: seq<ChecklistItem>)
    ensures var p := SystemPrompt(event, itinerary, checklist);
      var lead := "You are a helpful AI assistant for the \"";
      && OccursAt(p, EventTitle(event), |lead|)
      && Contains(p, EventTitle(event))
  {
    var lead := "You are a helpful AI assistant for the \"";
    var t := EventTitle(event);
    var tail := "\" event. You help attendees with questions about the event.";
    var sections := Sections(event, itinerary, checklist);
    var pre := Preamble(event);
    assert pre == lead + t + tail;
    assert SystemPrompt(event, itinerary, checklist) == lead + t + tail + sections;
    OccursBetween(lead, t, tail, sections);
  }
}
