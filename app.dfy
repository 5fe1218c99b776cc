/** The client's `App` component state and its transitions: the record list,
    the pin and in-progress-summary sets, the selection, the search box and
    the three overlays. Each React state setter becomes an assignment to a
    field; the clock reading `now` and the results of network calls are
    parameters. */
module Client {
  import opened Mail
  import opened Text
  import opened InboxView
  import opened Directive

  // ---------------------------------------------------------------------
  // List updates

  /** `prev.map(e => e.id === id ? { ...e, isPinned: !e.isPinned } : e)`. */
  function FlipPins(s: seq<Email>, id: string): (r: seq<Email>)
    ensures |r| == |s|
    ensures forall i :: 0 <= i < |s| ==>
              r[i] == if s[i].id == id then s[i].(isPinned := !s[i].isPinned) else s[i]
  {
    seq(|s|, i requires 0 <= i < |s| => if s[i].id == id then s[i].(isPinned := !s[i].isPinned) else s[i])
  }

  /** `id`'s membership of a set, toggled. */
  function Toggle(ids: set<string>, id: string): (r: set<string>)
    ensures id in r <==> id !in ids
    ensures forall x :: x != id ==> (x in r <==> x in ids)
  {
    if id in ids then ids - {id} else ids + {id}
  }

  /** `prev.filter(e => e.id !== id)`. */
  function Without(s: seq<Email>, id: string): (r: seq<Email>)
    ensures forall e :: e in r <==> e in s && e.id != id
    ensures |r| <= |s|
  {
    if s == [] then []
    else if s[0].id == id then Without(s[1..], id)
    else [s[0]] + Without(s[1..], id)
  }

  /** The fetched records with each `isPinned` recomputed from the pin set. */
  function MergePins(fetched: seq<Email>, pins: set<string>): (r: seq<Email>)
    ensures |r| == |fetched|
    ensures forall i :: 0 <= i < |fetched| ==> r[i] == fetched[i].(isPinned := fetched[i].id in pins)
  {
    seq(|fetched|, i requires 0 <= i < |fetched| => fetched[i].(isPinned := fetched[i].id in pins))
  }

  /** Sets the summary flag, and the summary text when one is given, on every record with the id. */
  function SetSummary(s: seq<Email>, id: string, flag: bool, text: Option<string>): (r: seq<Email>)
    ensures |r| == |s|
    ensures forall i :: 0 <= i < |s| ==>
              r[i] == if s[i].id != id then s[i]
                      else s[i].(hasSummary := flag, summary := if text.Some? then text else s[i].summary)
  {
    seq(|s|, i requires 0 <= i < |s| =>
      if s[i].id != id then s[i]
      else s[i].(hasSummary := flag, summary := if text.Some? then text else s[i].summary))
  }

  /** `emails.find(e => e.id === id)`. */
  function Find(s: seq<Email>, id: string): (r: Option<Email>)
    ensures r.None? <==> forall i :: 0 <= i < |s| ==> s[i].id != id
    ensures r.Some? ==> exists i :: 0 <= i < |s| && s[i] == r.value && r.value.id == id
                                   && forall j :: 0 <= j < i ==> s[j].id != id
  {
    var i := FindIndex(s, Some(id));
    if i == -1 then None else Some(s[i])
  }

  /** `s.findIndex(e => e.id === sel)`, where an absent selection matches no record. */
  function FindIndex(s: seq<Email>, sel: Option<string>): (r: int)
    ensures -1 <= r < |s|
    ensures r == -1 <==> sel.None? || forall i :: 0 <= i < |s| ==> s[i].id != sel.value
    ensures r != -1 ==> s[r].id == sel.value && forall j :: 0 <= j < r ==> s[j].id != sel.value
  {
    if sel.None? || s == [] then -1
    else if s[0].id == sel.value then 0
    else
      var r := FindIndex(s[1..], sel);
      assert forall j :: 1 <= j < |s| ==> s[j] == s[1..][j - 1];
      if r == -1 then -1 else r + 1
  }

  /** JavaScript truthiness of an id that may be `null`: `null` and "" are falsy. */
  predicate Truthy(id: Option<string>) {
    id.Some? && id.value != ""
  }

  // ---------------------------------------------------------------------
  // What the list updates promise

  /** `isPinned` of every record agrees with its id's membership of the pin set. */
  ghost predicate PinsConsistent(s: seq<Email>, pins: set<string>) {
    forall i :: 0 <= i < |s| ==> (s[i].isPinned <==> s[i].id in pins)
  }

  /** Toggling a pin twice restores the list and the set. */
  lemma FlipPinsTwice(s: seq<Email>, pins: set<string>, id: string)
    ensures FlipPins(FlipPins(s, id), id) == s
    ensures Toggle(Toggle(pins, id), id) == pins
  {
    var r := FlipPins(FlipPins(s, id), id);
    assert forall i :: 0 <= i < |s| ==> r[i] == s[i];
  }

  /** Toggling an id no record has leaves the list as it is (the set still changes). */
  lemma FlipUnknownId(s: seq<Email>, id: string)
    requires forall i :: 0 <= i < |s| ==> s[i].id != id
    ensures FlipPins(s, id) == s
  {
    var r := FlipPins(s, id);
    assert forall i :: 0 <= i < |s| ==> r[i] == s[i];
  }

  /** A pin toggle keeps `isPinned` in agreement with the pin set. */
  lemma FlipKeepsConsistent(s: seq<Email>, pins: set<string>, id: string)
    requires PinsConsistent(s, pins)
    ensures PinsConsistent(FlipPins(s, id), Toggle(pins, id))
  {
  }

  /** Removing records keeps the rest in their order: removal distributes over concatenation. */
  lemma {:induction false} WithoutAppend(a: seq<Email>, b: seq<Email>, id: string)
    ensures Without(a + b, id) == Without(a, id) + Without(b, id)
  {
    if a == [] {
      assert a + b == b;
    } else {
      assert (a + b)[0] == a[0];
      assert (a + b)[1..] == a[1..] + b;
      WithoutAppend(a[1..], b, id);
    }
  }

  /** A list with no record of the id is left as it is. */
  lemma {:induction false} WithoutAbsent(s: seq<Email>, id: string)
    requires forall i :: 0 <= i < |s| ==> s[i].id != id
    ensures Without(s, id) == s
  {
    if s != [] {
      WithoutAbsent(s[1..], id);
      assert [s[0]] + s[1..] == s;
    }
  }

  /** Removing records keeps `isPinned` in agreement with the pin set. */
  lemma WithoutKeepsConsistent(s: seq<Email>, pins: set<string>, id: string)
    requires PinsConsistent(s, pins)
    ensures PinsConsistent(Without(s, id), pins)
  {
    var r := Without(s, id);
    forall i | 0 <= i < |r| ensures r[i].isPinned <==> r[i].id in pins {
      assert r[i] in r;
      var j :| 0 <= j < |s| && s[j] == r[i];
    }
  }

  /** The merged list agrees with the pin set it was merged with. */
  lemma MergeIsConsistent(fetched: seq<Email>, pins: set<string>)
    ensures PinsConsistent(MergePins(fetched, pins), pins)
  {
  }

  /** The merge does not depend on the flags the server sent: a fetched list
      that differs only in `isPinned` merges to the same list. */
  lemma MergeIgnoresServerFlags(a: seq<Email>, b: seq<Email>, pins: set<string>)
    requires |a| == |b|
    requires forall i :: 0 <= i < |a| ==> a[i].(isPinned := false) == b[i].(isPinned := false)
    ensures MergePins(a, pins) == MergePins(b, pins)
  {
    forall i | 0 <= i < |a| ensures MergePins(a, pins)[i] == MergePins(b, pins)[i] {
      assert a[i].(isPinned := false).id == b[i].(isPinned := false).id;
      assert a[i].(isPinned := a[i].id in pins) == a[i].(isPinned := false).(isPinned := a[i].id in pins);
      assert b[i].(isPinned := b[i].id in pins) == b[i].(isPinned := false).(isPinned := b[i].id in pins);
    }
  }

  /** Summary changes touch neither the pin flags nor the ids. */
  lemma SetSummaryKeepsPins(s: seq<Email>, pins: set<string>, id: string, flag: bool, text: Option<string>)
    requires PinsConsistent(s, pins)
    ensures PinsConsistent(SetSummary(s, id, flag, text), pins)
    ensures forall i :: 0 <= i < |s| ==> SetSummary(s, id, flag, text)[i].id == s[i].id
  {
  }

  /** Hiding a summary keeps its text, so showing it again needs no new request. */
  lemma HideKeepsText(s: seq<Email>, id: string)
    ensures forall i :: 0 <= i < |s| ==>
              SetSummary(s, id, false, None)[i].summary == s[i].summary
              && (s[i].id == id ==> !SetSummary(s, id, false, None)[i].hasSummary)
  {
  }

  // ---------------------------------------------------------------------
  // Keyboard selection over the view

  /** The selection after ArrowDown: the record after the selected one, the
      first record when nothing in the view is selected, and no change at the
      last record or on an empty view. */
  function ArrowDownTarget(view: seq<Email>, sel: Option<string>): Option<string> {
    var idx := FindIndex(view, sel);
    if idx + 1 < |view| then Some(view[idx + 1].id) else sel
  }

  /** The selection after ArrowUp: the record before the selected one; no
      change at the first record or with nothing selected. */
  function ArrowUpTarget(view: seq<Email>, sel: Option<string>): Option<string> {
    var idx := FindIndex(view, sel);
    if idx - 1 >= 0 then Some(view[idx - 1].id) else sel
  }

  lemma ArrowDownMoves(view: seq<Email>, i: nat)
    requires i + 1 < |view|
    requires forall j :: 0 <= j < i ==> view[j].id != view[i].id
    ensures ArrowDownTarget(view, Some(view[i].id)) == Some(view[i + 1].id)
  {
  }

  lemma ArrowDownAtLastStays(view: seq<Email>)
    requires view != []
    requires forall j :: 0 <= j < |view| - 1 ==> view[j].id != view[|view| - 1].id
    ensures ArrowDownTarget(view, Some(view[|view| - 1].id)) == Some(view[|view| - 1].id)
  {
  }

  /** With no selection, or one that is not in the view, ArrowDown selects the first record. */
  lemma ArrowDownFromNothing(view: seq<Email>, sel: Option<string>)
    requires view != []
    requires sel.None? || forall j :: 0 <= j < |view| ==> view[j].id != sel.value
    ensures ArrowDownTarget(view, sel) == Some(view[0].id)
  {
  }

  lemma ArrowUpMoves(view: seq<Email>, i: nat)
    requires 0 < i < |view|
    requires forall j :: 0 <= j < i ==> view[j].id != view[i].id
    ensures ArrowUpTarget(view, Some(view[i].id)) == Some(view[i - 1].id)
  {
  }

  /** ArrowUp at the first record, or with nothing in the view selected, does nothing. */
  lemma ArrowUpAtTopStays(view: seq<Email>, sel: Option<string>)
    requires sel.None? || (forall j :: 0 <= j < |view| ==> view[j].id != sel.value)
             || (view != [] && view[0].id == sel.value)
    ensures ArrowUpTarget(view, sel) == sel
  {
  }

  /** ArrowDown then ArrowUp returns to a selection that is not the last,
      when ids in the view are distinct. */
  lemma ArrowDownThenUp(view: seq<Email>, i: nat)
    requires i + 1 < |view|
    requires forall j, k :: 0 <= j < k < |view| ==> view[j].id != view[k].id
    ensures ArrowUpTarget(view, ArrowDownTarget(view, Some(view[i].id))) == Some(view[i].id)
  {
    ArrowDownMoves(view, i);
    ArrowUpMoves(view, i + 1);
  }

  // ---------------------------------------------------------------------
  // The component

  /** The outcome of the inbox request: the request threw, the status was not
      OK, the body was not JSON, or it was JSON whose `emails` field is a list
      or is missing. */
  datatype FetchOutcome = RequestFailed | HttpError(status: int) | NotJson | Json(emailsField: Option<seq<Email>>)

  /** What a click on a record's summary button did. */
  datatype SummaryStart = NoSuchEmail | SummaryHidden | SummaryRequested(body: string)

  /** The keys the handler tells apart: `e.key` equal to "Escape", "/", "k",
      "ArrowDown", "ArrowUp" or "Enter"; `OtherKey` is every other `e.key`. */
  datatype Key = Escape | Slash | LetterK | ArrowDown | ArrowUp | Enter | OtherKey

  /** A key press: the key, whether Ctrl or Meta was held, and whether the
      focus was in an input or text area. */
  datatype KeyEvent = KeyEvent(key: Key, ctrlOrMeta: bool, inTextField: bool)

  class App {
    var emails: seq<Email>
    var pinnedIds: set<string>
    var summarizingIds: set<string>
    var loading: bool
    var activeLabelId: string
    var expandedEmailId: Option<string>
    var viewingEmailId: Option<string>
    var timeRange: string
    var activeTab: string
    var isSearchOpen: bool
    var searchQuery: string
    var showChat: bool
    var showShortcuts: bool
    var showSettings: bool

    /** The initial state. */
    constructor()
      ensures emails == [] && pinnedIds == {} && summarizingIds == {} && loading
      ensures activeLabelId == "INBOX" && expandedEmailId.None? && viewingEmailId.None?
      ensures timeRange == "30d" && activeTab == "Inbox" && !isSearchOpen && searchQuery == ""
      ensures !showChat && !showShortcuts && !showSettings
      ensures PinsConsistent(emails, pinnedIds) && AtMostOneOverlay()
    {
      emails := [];
      pinnedIds := {};
      summarizingIds := {};
      loading := true;
      activeLabelId := "INBOX";
      expandedEmailId := None;
      viewingEmailId := None;
      timeRange := "30d";
      activeTab := "Inbox";
      isSearchOpen := false;
      searchQuery := "";
      showChat := false;
      showShortcuts := false;
      showSettings := false;
    }

    /** At most one of the chat, shortcuts and settings overlays is open. */
    predicate AtMostOneOverlay()
      reads this`showChat, this`showShortcuts, this`showSettings
    {
      (if showChat then 1 else 0) + (if showShortcuts then 1 else 0) + (if showSettings then 1 else 0) <= 1
    }

    // --- Records ---------------------------------------------------------

    /** The fetch effect: a JSON answer with an `emails` list replaces the list
        by the fetched records with `isPinned` taken from `pinSnapshot`, the
        pin set captured when the fetch began; every other outcome keeps the
        list. Loading ends in every case. */
    method ApplyFetch(outcome: FetchOutcome, pinSnapshot: set<string>)
      modifies this`emails, this`loading
      ensures !loading
      ensures outcome.Json? && outcome.emailsField.Some? ==> emails == MergePins(outcome.emailsField.value, pinSnapshot)
      ensures !(outcome.Json? && outcome.emailsField.Some?) ==> emails == old(emails)
      ensures pinSnapshot == pinnedIds && PinsConsistent(old(emails), pinnedIds) ==> PinsConsistent(emails, pinnedIds)
    {
      if outcome.Json? && outcome.emailsField.Some? {
        emails := MergePins(outcome.emailsField.value, pinSnapshot);
        MergeIsConsistent(outcome.emailsField.value, pinSnapshot);
      }
      loading := false;
    }

    /** `handlePin`: flips `isPinned` on the records with the id and toggles
        the id in the pin set. */
    method TogglePin(id: string)
      modifies this`emails, this`pinnedIds
      ensures emails == FlipPins(old(emails), id) && pinnedIds == Toggle(old(pinnedIds), id)
      ensures old(PinsConsistent(emails, pinnedIds)) ==> PinsConsistent(emails, pinnedIds)
    {
      if PinsConsistent(emails, pinnedIds) {
        FlipKeepsConsistent(emails, pinnedIds, id);
      }
      emails := FlipPins(emails, id);
      pinnedIds := Toggle(pinnedIds, id);
    }

    /** `handleDelete`: removes the records with the id; the pin set stays. */
    method Delete(id: string)
      modifies this`emails
      ensures emails == Without(old(emails), id)
      ensures old(PinsConsistent(emails, pinnedIds)) ==> PinsConsistent(emails, pinnedIds)
    {
      if PinsConsistent(emails, pinnedIds) {
        WithoutKeepsConsistent(emails, pinnedIds, id);
      }
      emails := Without(emails, id);
    }

    /** `handleArchive`: the same removal as `handleDelete`. */
    method Archive(id: string)
      modifies this`emails
      ensures emails == Without(old(emails), id)
      ensures old(PinsConsistent(emails, pinnedIds)) ==> PinsConsistent(emails, pinnedIds)
    {
      if PinsConsistent(emails, pinnedIds) {
        WithoutKeepsConsistent(emails, pinnedIds, id);
      }
      emails := Without(emails, id);
    }

    /** The first half of `handleSummarizeHandler`: an unknown id does
        nothing; a shown summary is hidden (its text kept); otherwise the id
        is marked as summarizing and the record's body is to be sent. */
    method StartSummary(id: string) returns (r: SummaryStart)
      modifies this`emails, this`summarizingIds
      ensures var found := Find(old(emails), id);
        && (found.None? ==> r == NoSuchEmail && emails == old(emails) && summarizingIds == old(summarizingIds))
        && (found.Some? && found.value.hasSummary ==>
              r == SummaryHidden && emails == SetSummary(old(emails), id, false, None)
              && summarizingIds == old(summarizingIds))
        && (found.Some? && !found.value.hasSummary ==>
              r == SummaryRequested(found.value.body) && emails == old(emails)
              && summarizingIds == old(summarizingIds) + {id})
      ensures old(PinsConsistent(emails, pinnedIds)) ==> PinsConsistent(emails, pinnedIds)
    {
      var found := Find(emails, id);
      if found.None? {
        return NoSuchEmail;
      }
      if found.value.hasSummary {
        if PinsConsistent(emails, pinnedIds) {
          SetSummaryKeepsPins(emails, pinnedIds, id, false, None);
        }
        emails := SetSummary(emails, id, false, None);
        return SummaryHidden;
      }
      summarizingIds := summarizingIds + {id};
      r := SummaryRequested(found.value.body);
    }

    /** The second half: a non-empty summary is stored and shown on the
        records with the id; success or failure, the id stops summarizing.
        `summary` is `data.summary` of an OK answer, `None` when the request failed. */
    method FinishSummary(id: string, summary: Option<string>)
      modifies this`emails, this`summarizingIds
      ensures Truthy(summary) ==> emails == SetSummary(old(emails), id, true, summary)
      ensures !Truthy(summary) ==> emails == old(emails)
      ensures summarizingIds == old(summarizingIds) - {id}
      ensures old(PinsConsistent(emails, pinnedIds)) ==> PinsConsistent(emails, pinnedIds)
    {
      if Truthy(summary) {
        if PinsConsistent(emails, pinnedIds) {
          SetSummaryKeepsPins(emails, pinnedIds, id, true, summary);
        }
        emails := SetSummary(emails, id, true, summary);
      }
      summarizingIds := summarizingIds - {id};
    }

    /** The directive handling in `handleSendMessage`: a `PIN` directive
        toggles its target's pin; the text to show is returned. */
    method HandleReply(reply: string) returns (shown: string)
      modifies this`emails, this`pinnedIds
      ensures shown == Interpret(reply).text
      ensures Interpret(reply).pinToggle.Some? ==>
                emails == FlipPins(old(emails), Interpret(reply).pinToggle.value)
                && pinnedIds == Toggle(old(pinnedIds), Interpret(reply).pinToggle.value)
      ensures Interpret(reply).pinToggle.None? ==> emails == old(emails) && pinnedIds == old(pinnedIds)
    {
      var effect := Interpret(reply);
      if effect.pinToggle.Some? {
        TogglePin(effect.pinToggle.value);
      }
      shown := effect.text;
    }

    // --- Selection -------------------------------------------------------

    /** `toggleExpand`: selecting the selected record clears the selection. */
    method ToggleExpand(id: string)
      modifies this`expandedEmailId
      ensures expandedEmailId == if old(expandedEmailId) == Some(id) then None else Some(id)
    {
      expandedEmailId := if expandedEmailId == Some(id) then None else Some(id);
    }

    /** A card's `onOpen`: the record is shown in full. */
    method OpenEmail(id: string)
      modifies this`viewingEmailId
      ensures viewingEmailId == Some(id)
    {
      viewingEmailId := Some(id);
    }

    /** The full view's `onClose`: nothing is shown in full and nothing is selected. */
    method CloseEmail()
      modifies this`viewingEmailId, this`expandedEmailId
      ensures viewingEmailId.None? && expandedEmailId.None?
    {
      viewingEmailId := None;
      expandedEmailId := None;
    }

    // --- Overlays --------------------------------------------------------

    /** The chat dock button and Ctrl/Cmd+K: closes an open chat, otherwise
        opens it and closes the other two overlays. */
    method ToggleChat()
      modifies this`showChat, this`showShortcuts, this`showSettings
      ensures old(showChat) ==> !showChat && showShortcuts == old(showShortcuts) && showSettings == old(showSettings)
      ensures !old(showChat) ==> showChat && !showShortcuts && !showSettings
      ensures old(AtMostOneOverlay()) ==> AtMostOneOverlay()
    {
      if showChat {
        CloseChat();
      } else {
        showShortcuts := false;
        showSettings := false;
        showChat := true;
      }
    }

    /** The shortcuts dock button. */
    method ToggleShortcuts()
      modifies this`showChat, this`showShortcuts, this`showSettings
      ensures old(showShortcuts) ==> !showShortcuts && showChat == old(showChat) && showSettings == old(showSettings)
      ensures !old(showShortcuts) ==> showShortcuts && !showChat && !showSettings
      ensures old(AtMostOneOverlay()) ==> AtMostOneOverlay()
    {
      if showShortcuts {
        showShortcuts := false;
      } else {
        showChat := false;
        showSettings := false;
        showShortcuts := true;
      }
    }

    /** The settings dock button. */
    method ToggleSettings()
      modifies this`showChat, this`showShortcuts, this`showSettings
      ensures old(showSettings) ==> !showSettings && showChat == old(showChat) && showShortcuts == old(showShortcuts)
      ensures !old(showSettings) ==> showSettings && !showChat && !showShortcuts
      ensures old(AtMostOneOverlay()) ==> AtMostOneOverlay()
    {
      if showSettings {
        showSettings := false;
      } else {
        showChat := false;
        showShortcuts := false;
        showSettings := true;
      }
    }

    /** `closeChat` (its transcript reset is not modelled). */
    method CloseChat()
      modifies this`showChat
      ensures !showChat
    {
      showChat := false;
    }

    method CloseShortcuts()
      modifies this`showShortcuts
      ensures !showShortcuts
    {
      showShortcuts := false;
    }

    method CloseSettings()
      modifies this`showSettings
      ensures !showSettings
    {
      showSettings := false;
    }

    // --- Search box and filters -------------------------------------------

    /** The search button: opens a closed box; closes an open box only when the query is empty. */
    method SearchButton()
      modifies this`isSearchOpen
      ensures isSearchOpen == (!old(isSearchOpen) || searchQuery != "")
    {
      if !isSearchOpen {
        isSearchOpen := true;
      } else {
        if searchQuery == "" {
          isSearchOpen := false;
        }
      }
    }

    /** A mouse press outside the search box closes it when the query is empty. */
    method ClickOutsideSearch()
      modifies this`isSearchOpen
      ensures isSearchOpen == (old(isSearchOpen) && searchQuery != "")
    {
      if searchQuery == "" {
        isSearchOpen := false;
      }
    }

    method SetSearchQuery(q: string)
      modifies this`searchQuery
      ensures searchQuery == q
    {
      searchQuery := q;
    }

    method SetTimeRange(range: string)
      modifies this`timeRange
      ensures timeRange == range
    {
      timeRange := range;
    }

    /** `handleTabChange`: the Inbox tab also selects the INBOX label. */
    method ChangeTab(tab: string)
      modifies this`activeTab, this`activeLabelId
      ensures activeTab == tab
      ensures activeLabelId == if tab == "Inbox" then "INBOX" else old(activeLabelId)
    {
      activeTab := tab;
      if tab == "Inbox" {
        activeLabelId := "INBOX";
      }
    }

    // --- The keyboard handler ---------------------------------------------

    /** `handleKeyDown`. In a text field only Escape acts. Elsewhere
        Ctrl/Cmd+K, `/` and Escape act on the overlays and the search box,
        and, when nothing was shown in full and no overlay was open, the arrows
        and Enter act on the selection over `view`. The handler reads the state
        of the render it was created in: `view` is that render's
        `filteredEmails` (`FilteredEmails` of that render's state and time), and
        the guard is taken before any change. */
    method KeyDown(ev: KeyEvent, view: seq<Email>)
      modifies this`showChat, this`showShortcuts, this`showSettings, this`isSearchOpen,
               this`viewingEmailId, this`expandedEmailId
      ensures old(AtMostOneOverlay()) ==> AtMostOneOverlay()
      ensures ev.inTextField ==>
        && showShortcuts == old(showShortcuts) && showSettings == old(showSettings)
        && viewingEmailId == old(viewingEmailId) && expandedEmailId == old(expandedEmailId)
        && (ev.key == Escape ==> !showChat && isSearchOpen == (old(isSearchOpen) && searchQuery != ""))
        && (ev.key != Escape ==> showChat == old(showChat) && isSearchOpen == old(isSearchOpen))
      ensures !ev.inTextField && ev.key == Escape ==>
        && !showChat && !showShortcuts && !showSettings && viewingEmailId.None? && expandedEmailId.None?
        && isSearchOpen == (old(isSearchOpen) && searchQuery != "")
      ensures !ev.inTextField && ev.key == Slash ==>
        && isSearchOpen
        && showChat == old(showChat) && showShortcuts == old(showShortcuts) && showSettings == old(showSettings)
        && viewingEmailId == old(viewingEmailId) && expandedEmailId == old(expandedEmailId)
      ensures !ev.inTextField && ev.key == LetterK && ev.ctrlOrMeta ==>
        && isSearchOpen == old(isSearchOpen)
        && viewingEmailId == old(viewingEmailId) && expandedEmailId == old(expandedEmailId)
        && (if old(showChat) then !showChat && showShortcuts == old(showShortcuts) && showSettings == old(showSettings)
            else showChat && !showShortcuts && !showSettings)
      ensures !ev.inTextField && ev.key == LetterK && !ev.ctrlOrMeta ==>
        && showChat == old(showChat) && showShortcuts == old(showShortcuts) && showSettings == old(showSettings)
        && isSearchOpen == old(isSearchOpen) && viewingEmailId == old(viewingEmailId)
        && expandedEmailId == old(expandedEmailId)
      ensures !ev.inTextField && ev.key in {ArrowDown, ArrowUp, Enter} ==>
        && showChat == old(showChat) && showShortcuts == old(showShortcuts) && showSettings == old(showSettings)
        && isSearchOpen == old(isSearchOpen)
        && (var idle := !Truthy(old(viewingEmailId)) && !old(showChat) && !old(showShortcuts) && !old(showSettings);
            if idle then SelectionMoved(ev.key, view, old(expandedEmailId), old(viewingEmailId))
            else expandedEmailId == old(expandedEmailId) && viewingEmailId == old(viewingEmailId))
      ensures !ev.inTextField && ev.key == OtherKey ==>
        && showChat == old(showChat) && showShortcuts == old(showShortcuts) && showSettings == old(showSettings)
        && isSearchOpen == old(isSearchOpen) && viewingEmailId == old(viewingEmailId)
        && expandedEmailId == old(expandedEmailId)
    {
      if ev.inTextField {
        TextFieldKey(ev.key);
        return;
      }
      var idle := !Truthy(viewingEmailId) && !showChat && !showShortcuts && !showSettings;
      var selected := expandedEmailId;
      CommandKey(ev);
      if idle {
        SelectionKey(ev.key, view, selected);
      }
    }

    /** The selection and the full view after a selection key, given the view
        and the selection and full view before it. */
    ghost predicate SelectionMoved(key: Key, view: seq<Email>, selected: Option<string>, viewing: Option<string>)
      reads this`expandedEmailId, this`viewingEmailId
    {
      && (key == ArrowDown ==> expandedEmailId == ArrowDownTarget(view, selected) && viewingEmailId == viewing)
      && (key == ArrowUp ==> expandedEmailId == ArrowUpTarget(view, selected) && viewingEmailId == viewing)
      && (key == Enter ==> expandedEmailId == selected
                             && viewingEmailId == if Truthy(selected) then selected else viewing)
    }

    /** A key pressed in an input or text area: Escape closes an empty search box and the chat. */
    method TextFieldKey(key: Key)
      modifies this`showChat, this`isSearchOpen
      ensures key == Escape ==> !showChat && isSearchOpen == (old(isSearchOpen) && searchQuery != "")
      ensures key != Escape ==> showChat == old(showChat) && isSearchOpen == old(isSearchOpen)
    {
      if key == Escape {
        if searchQuery == "" {
          isSearchOpen := false;
        }
        CloseChat();
      }
    }

    /** Ctrl/Cmd+K toggles the chat, `/` opens the search box, and Escape
        closes the overlays, the full view, the selection and an empty search box. */
    method CommandKey(ev: KeyEvent)
      modifies this`showChat, this`showShortcuts, this`showSettings, this`isSearchOpen,
               this`viewingEmailId, this`expandedEmailId
      ensures old(AtMostOneOverlay()) ==> AtMostOneOverlay()
      ensures ev.key == Escape ==>
        && !showChat && !showShortcuts && !showSettings && viewingEmailId.None? && expandedEmailId.None?
        && isSearchOpen == (old(isSearchOpen) && searchQuery != "")
      ensures ev.key == Slash ==>
        isSearchOpen && showChat == old(showChat) && showShortcuts == old(showShortcuts) && showSettings == old(showSettings)
      ensures ev.key == LetterK && ev.ctrlOrMeta ==>
        && isSearchOpen == old(isSearchOpen)
        && (if old(showChat) then !showChat && showShortcuts == old(showShortcuts) && showSettings == old(showSettings)
            else showChat && !showShortcuts && !showSettings)
      ensures ev.key != Escape && ev.key != Slash && !(ev.key == LetterK && ev.ctrlOrMeta) ==>
        && showChat == old(showChat) && showShortcuts == old(showShortcuts) && showSettings == old(showSettings)
        && isSearchOpen == old(isSearchOpen)
      ensures ev.key != Escape ==> viewingEmailId == old(viewingEmailId) && expandedEmailId == old(expandedEmailId)
    {
      if ev.ctrlOrMeta && ev.key == LetterK {
        ToggleChat();
      }
      if ev.key == Slash {
        isSearchOpen := true;
      }
      if ev.key == Escape {
        CloseChat();
        showShortcuts := false;
        showSettings := false;
        viewingEmailId := None;
        expandedEmailId := None;
        if searchQuery == "" {
          isSearchOpen := false;
        }
      }
    }

    /** The arrows and Enter over `view`, with `selected` the selection the
        handler saw: ArrowDown and ArrowUp move the selection by one record
        (ArrowDown from no selection to the first record), and Enter shows a
        selected record in full. */
    method SelectionKey(key: Key, view: seq<Email>, selected: Option<string>)
      requires key in {ArrowDown, ArrowUp, Enter} ==> expandedEmailId == selected
      modifies this`viewingEmailId, this`expandedEmailId
      ensures key in {ArrowDown, ArrowUp, Enter} ==> SelectionMoved(key, view, selected, old(viewingEmailId))
      ensures key == Enter ==> expandedEmailId == old(expandedEmailId)
      ensures key !in {ArrowDown, ArrowUp, Enter} ==>
        viewingEmailId == old(viewingEmailId) && expandedEmailId == old(expandedEmailId)
    {
      if key == ArrowDown {
        var idx := FindIndex(view, selected);
        var next := idx + 1;
        if next < |view| {
          expandedEmailId := Some(view[next].id);
        } else if idx == -1 && |view| > 0 {
          assert false;
        }
      }
      if key == ArrowUp {
        var idx := FindIndex(view, selected);
        var prev := idx - 1;
        if prev >= 0 {
          expandedEmailId := Some(view[prev].id);
        }
      }
      if key == Enter && Truthy(selected) {
        viewingEmailId := selected;
      }
    }
  }
}
