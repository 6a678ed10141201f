/** The current content script (chrome/content.js): the state it keeps between events
    and the event handlers that read and change it. */
module ChromeAnnotator {
  import opened Dom
  import opened Keys
  import opened Decimal
  import opened ChromeScan
  import opened ChromeSlots
  import opened Observer

  /** The Reddit pages the script annotates contain this path. */
  const RedditAppsPath: string := "/prefs/apps"
  /** The Giphy pages the script annotates start with this URL. */
  const GiphyDashboardUrl: string := "https://developers.giphy.com/dashboard"

  /** How `processPage` ends: it returns whether it inserted a button, or the fallback
      pass throws a TypeError on a heading without a parent. */
  datatype ScanOutcome = Completed(insertedAny: bool) | Threw

  /** The session-storage entry for the Giphy counter after a scan that started at
      `start` and ended at `counter`: untouched when no key was taken, otherwise the
      last value written, from which the next scan resumes at `counter`. */
  function StoredAfter(before: Option<string>, start: nat, counter: nat): (r: Option<string>)
    ensures (before.None? || IsDigits(before.value)) ==> r.None? || IsDigits(r.value)
    ensures counter == start ==> r == before
    ensures counter != start ==> r.Some? && IsDigits(r.value) && StoredCounter(r) == counter
  {
    StoredCounterResumes(counter);
    if counter == start then before else Some(NatToString(counter))
  }

  /** Two runs of writes compose: what is stored after the second is what one run
      from the first start to the second end leaves. */
  lemma StoredAfterCompose(before: Option<string>, a: nat, b: nat, c: nat)
    requires a <= b <= c
    ensures StoredAfter(StoredAfter(before, a, b), b, c) == StoredAfter(before, a, c)
  {
  }

  /** Two Giphy scans in a row never hand out the same slot index. The first numbers
      its keys from the stored counter on; the second starts from what the first left
      in storage, which lies above every number the first one used. */
  lemma ResumedScansNumberDisjointly(nodes: seq<PageNode>, stored: Option<string>, s1: GiphyPass, ps: seq<nat>,
                                     r1: GiphyPass, second: nat)
    requires stored.None? || IsDigits(stored.value)
    requires DistinctIds(nodes) && |s1.attached| == |nodes|
    requires CardPositions(nodes, ps) && Increasing(ps)
    requires s1.inserted == [] && s1.counter == StoredCounter(stored)
    requires r1 == GiphyFold(nodes, s1, ps)
    requires second == StoredCounter(StoredAfter(stored, s1.counter, r1.counter))
    ensures var used := |Consumers(nodes, s1.processed, s1.attached, ps)|;
      forall m, n :: s1.counter <= m < s1.counter + used && second <= n ==> GiphyIndex(m) != GiphyIndex(n)
  {
    GiphyFoldCounted(nodes, s1, ps);
    var used := |Consumers(nodes, s1.processed, s1.attached, ps)|;
    forall m, n | s1.counter <= m < s1.counter + used && second <= n
      ensures GiphyIndex(m) != GiphyIndex(n)
    {
      GiphyIndicesDistinct(m, n);
    }
  }

  /** The module state of one injected copy of the script, plus the page it runs in. */
  class Annotator {
    /** The page. */
    const doc: Document
    /** `processedElements`: headings and Giphy inputs that got a button. */
    var processed: set<NodeId>
    /** The session-storage entry `rah_giphyIndex`. */
    var storedIndex: Option<string>
    /** `isInitializing`. */
    var isInitializing: bool
    /** `isProcessingMutation`: a scan scheduled by the observer has not run yet. */
    var isProcessingMutation: bool
    /** `giphyObserver !== null`. */
    var observing: bool
    /** Scans scheduled by the observer whose timer has not fired yet. */
    var pendingScans: nat

    ghost predicate Valid()
      reads this, doc
    {
      && doc.Valid()
      && (storedIndex.None? || IsDigits(storedIndex.value))
      && (isProcessingMutation ==> pendingScans > 0)
    }

    /** The script's state right after it is injected into `doc`, before its entry point
        runs; `stored` is what the tab's session storage already holds. */
    constructor (doc: Document, stored: Option<string>)
      requires doc.Valid()
      requires stored.None? || IsDigits(stored.value)
      ensures Valid() && this.doc == doc && storedIndex == stored && processed == {}
      ensures !isInitializing && !isProcessingMutation && !observing && pendingScans == 0
    {
      this.doc := doc;
      processed := {};
      storedIndex := stored;
      isInitializing := false;
      isProcessingMutation := false;
      observing := false;
      pendingScans := 0;
    }

    /** `processPage`. On a Reddit apps page it runs the primary pass and, when that
        inserted nothing on this run, the fallback pass; the result is the scan
        `RedditScan` describes, and the return value says whether anything was inserted
        (or that the fallback pass threw, keeping what it did before). Anywhere else it
        returns false and changes nothing. */
    method ProcessPage() returns (outcome: ScanOutcome)
      requires Valid()
      modifies doc`attached, this`processed
      ensures Valid()
      ensures !Includes(doc.url, RedditAppsPath) ==>
        outcome == Completed(false) && doc.attached == old(doc.attached) && processed == old(processed)
      ensures Includes(doc.url, RedditAppsPath) ==>
        var r := RedditScan(doc.nodes, old(doc.attached), old(processed));
        && doc.attached == r.attached && processed == r.processed
        && outcome == (if r.threw then Threw else Completed(r.inserted != []))
    {
      if !Includes(doc.url, RedditAppsPath) {
        return Completed(false);
      }
      ghost var nodes := doc.nodes;
      ghost var scan := RedditScan(nodes, doc.attached, processed);
      ghost var first := RedditFold(Primary, nodes, RedditPass(doc.attached, processed, [], false),
                                    QuerySelectorAll(nodes, PrimaryHeadingSel));
      var processedAny := PrimaryPass();
      assert doc.attached == first.attached && processed == first.processed;
      if processedAny {
        assert scan == first;
      } else {
        assert first == RedditPass(doc.attached, processed, [], false);
        assert scan == RedditFold(Fallback, nodes, first, QuerySelectorAll(nodes, AnyHeadingSel));
        var threw;
        processedAny, threw := FallbackPass();
        if threw {
          return Threw;
        }
      }
      outcome := Completed(processedAny);
    }

    /** The first `forEach` of `processPage`, over the client-ID headings; it returns
        whether it inserted a button. */
    method PrimaryPass() returns (processedAny: bool)
      requires Valid()
      modifies doc`attached, this`processed
      ensures Valid()
      ensures var r := RedditFold(Primary, doc.nodes, RedditPass(old(doc.attached), old(processed), [], false),
                                  QuerySelectorAll(doc.nodes, PrimaryHeadingSel));
        doc.attached == r.attached && processed == r.processed && processedAny == (r.inserted != []) && !r.threw
    {
      var nodes := doc.nodes;
      var start := RedditPass(doc.attached, processed, [], false);
      ghost var st := start;
      processedAny := false;

      var hs := QuerySelectorAll(nodes, PrimaryHeadingSel);
      Selections(nodes);
      var i := 0;
      while i < |hs|
        invariant 0 <= i <= |hs| && Valid() && doc.nodes == nodes
        invariant st == RedditFold(Primary, nodes, start, hs[..i])
        invariant doc.attached == st.attached && processed == st.processed && !st.threw
        invariant processedAny == (st.inserted != [])
        decreases |hs| - i
      {
        RedditFoldSnoc(Primary, nodes, start, hs, i);
        var added := VisitClientIdHeading(hs[i], st.inserted);
        st := RedditStep(Primary, nodes, st, hs[i]);
        processedAny := processedAny || added;
        i := i + 1;
      }
      assert hs[..|hs|] == hs;
    }

    /** The callback of the first `forEach`, for the heading at `p`: one step of the
        primary pass. It returns whether it inserted a button. */
    method VisitClientIdHeading(p: nat, ghost inserted: seq<NodeId>) returns (added: bool)
      requires Valid() && p < |doc.nodes| && doc.nodes[p].Heading?
      modifies doc`attached, this`processed
      ensures Valid()
      ensures var r := RedditStep(Primary, doc.nodes, RedditPass(old(doc.attached), old(processed), inserted, false), p);
        && doc.attached == r.attached && processed == r.processed && !r.threw
        && r.inserted == (if added then inserted + [doc.nodes[p].id] else inserted)
    {
      var element := doc.nodes[p];
      added := false;
      if element.id in processed || NextIsClassedButton(doc.attached[p]) {
        return;
      }
      var clientId := Trim(element.text);
      if IsRedditClientId(clientId) {
        var showQrButton := NewButton(clientId, RedditIndexPrefix + clientId, RedditTitle(clientId));
        if element.hasParent {
          doc.attached := InsertAfterNode(doc.attached, p, showQrButton);
          processed := processed + {element.id};
          added := true;
        }
      }
    }

    /** The second `forEach` of `processPage`, over every `h3`, run when the first
        inserted nothing; it returns whether it inserted a button, and whether it threw
        on a heading without a parent. */
    method FallbackPass() returns (processedAny: bool, threw: bool)
      requires Valid()
      modifies doc`attached, this`processed
      ensures Valid()
      ensures var r := RedditFold(Fallback, doc.nodes, RedditPass(old(doc.attached), old(processed), [], false),
                                  QuerySelectorAll(doc.nodes, AnyHeadingSel));
        doc.attached == r.attached && processed == r.processed && threw == r.threw
        && (!threw ==> processedAny == (r.inserted != []))
    {
      var nodes := doc.nodes;
      var start := RedditPass(doc.attached, processed, [], false);
      ghost var st := start;
      processedAny, threw := false, false;

      var all := QuerySelectorAll(nodes, AnyHeadingSel);
      Selections(nodes);
      var i := 0;
      // An exception ends the `forEach`.
      while i < |all| && !threw
        invariant 0 <= i <= |all| && Valid() && doc.nodes == nodes
        invariant st == RedditFold(Fallback, nodes, start, all[..i])
        invariant doc.attached == st.attached && processed == st.processed && threw == st.threw
        invariant processedAny == (st.inserted != [])
        decreases |all| - i
      {
        RedditFoldSnoc(Fallback, nodes, start, all, i);
        var added;
        added, threw := VisitAnyHeading(all[i], st.inserted);
        st := RedditStep(Fallback, nodes, st, all[i]);
        processedAny := processedAny || added;
        i := i + 1;
      }
      if threw {
        RedditFoldAfterThrow(Fallback, nodes, start, all, i);
      } else {
        assert all[..|all|] == all;
      }
    }

    /** The callback of the second `forEach`, for the heading at `p`: one step of the
        fallback pass. It returns whether it inserted a button, and whether it threw (a
        qualifying heading without a parent). */
    method VisitAnyHeading(p: nat, ghost inserted: seq<NodeId>) returns (added: bool, threw: bool)
      requires Valid() && p < |doc.nodes| && doc.nodes[p].Heading?
      modifies doc`attached, this`processed
      ensures Valid()
      ensures var r := RedditStep(Fallback, doc.nodes, RedditPass(old(doc.attached), old(processed), inserted, false), p);
        && doc.attached == r.attached && processed == r.processed && threw == r.threw
        && r.inserted == (if added then inserted + [doc.nodes[p].id] else inserted)
    {
      var element := doc.nodes[p];
      added, threw := false, false;
      if element.id in processed || NextIsClassedButton(doc.attached[p]) {
        return;
      }
      var text := Trim(element.text);
      if IsRedditFallbackKey(text) {
        var showQrButton := NewButton(text, RedditAltIndexPrefix + text, RedditTitle(text));
        if !element.hasParent {
          return false, true;
        }
        doc.attached := InsertAfterNode(doc.attached, p, showQrButton);
        processed := processed + {element.id};
        added := true;
      }
    }

    /** `processGiphyDashboard`. Every app card is judged in document order; the counter
        starts from the stored value, advances once per valid key, and every new value
        is written back to session storage at once. The result is the scan `GiphyFold`
        describes, and the return value says whether a button was inserted. With no
        cards on the page nothing changes. */
    method ProcessGiphyDashboard() returns (processedNew: bool)
      requires Valid()
      modifies doc`attached, this`processed, this`storedIndex
      ensures Valid()
      ensures var start := GiphyPass(old(doc.attached), old(processed), [], StoredCounter(old(storedIndex)));
        var r := GiphyFold(doc.nodes, start, QuerySelectorAll(doc.nodes, AppCardSel));
        && doc.attached == r.attached && processed == r.processed
        && processedNew == (r.inserted != [])
        && storedIndex == StoredAfter(old(storedIndex), start.counter, r.counter)
    {
      var nodes := doc.nodes;
      var appCards := QuerySelectorAll(nodes, AppCardSel);
      Selections(nodes);
      if |appCards| == 0 {
        return false;
      }
      processedNew := false;
      var giphyIndex: nat := StoredCounter(storedIndex);
      var start := GiphyPass(doc.attached, processed, [], giphyIndex);
      ghost var st := start;
      ghost var stored0 := storedIndex;

      var i := 0;
      while i < |appCards|
        invariant 0 <= i <= |appCards| && Valid() && doc.nodes == nodes
        invariant st == GiphyFold(nodes, start, appCards[..i])
        invariant doc.attached == st.attached && processed == st.processed && giphyIndex == st.counter
        invariant processedNew == (st.inserted != [])
        invariant giphyIndex >= start.counter
        invariant storedIndex == StoredAfter(stored0, start.counter, giphyIndex)
        decreases |appCards| - i
      {
        GiphyFoldSnoc(nodes, start, appCards, i);
        var added;
        ghost var before := giphyIndex;
        giphyIndex, added := VisitCard(appCards[i], giphyIndex, st.inserted);
        StoredAfterCompose(stored0, start.counter, before, giphyIndex);
        st := GiphyStep(nodes, st, appCards[i]);
        processedNew := processedNew || added;
        i := i + 1;
      }
      assert appCards[..|appCards|] == appCards;
    }

    /** The `forEach` callback of `processGiphyDashboard`, for the card at `p` with the
        counter at `giphyIndex`: one step of the Giphy scan. A valid key takes the
        counter's value, and the advanced counter is stored before the button is built;
        it returns the counter and whether it inserted a button. */
    method VisitCard(p: nat, giphyIndex: nat, ghost inserted: seq<NodeId>) returns (next: nat, added: bool)
      requires Valid() && p < |doc.nodes| && doc.nodes[p].AppCard?
      modifies doc`attached, this`processed, this`storedIndex
      ensures Valid()
      ensures var r := GiphyStep(doc.nodes, GiphyPass(old(doc.attached), old(processed), inserted, giphyIndex), p);
        && doc.attached == r.attached && processed == r.processed && next == r.counter
        && (added ==> doc.nodes[p].input.Some? && r.inserted == inserted + [doc.nodes[p].input.value.id])
        && (!added ==> r.inserted == inserted)
        && next >= giphyIndex
        && storedIndex == StoredAfter(old(storedIndex), giphyIndex, next)
    {
      var card := doc.nodes[p];
      next, added := giphyIndex, false;
      if card.input.None? || card.editLink.None? || card.input.value.id in processed
         || PrevIsClassedButton(doc.attached[p]) {
        return;
      }
      var apiKey := Trim(card.input.value.value);
      if IsGiphyKey(apiKey) {
        var currentGiphyIndex := next;
        next := next + 1;
        storedIndex := Some(NatToString(next));
        var showQrButton := NewButton(apiKey, GiphyIndex(currentGiphyIndex), GiphyTitle(apiKey));
        if card.editLink.value.hasParent {
          doc.attached := InsertBeforeLink(doc.attached, p, showQrButton);
          processed := processed + {card.input.value.id};
          added := true;
        }
      }
    }

    /** `observeGiphyContent`: starts observing the page body unless an observer exists
        already or the page has no body. */
    method ObserveGiphyContent()
      requires Valid()
      modifies this`observing
      ensures Valid()
      ensures observing == (old(observing) || doc.hasBody)
    {
      if observing {
        return;
      }
      if !doc.hasBody {
        return;
      }
      observing := true;
    }

    /** `initializeAndProcess`. While a call is under way a second one does nothing.
        Otherwise it clears the processed-set, the stored counter and the mutation flag,
        drops the observer, and then either scans a Reddit apps page (an exception from
        the scan is caught), or starts observing a Giphy dashboard, or does nothing more.
        Timers already scheduled are not cancelled. */
    method Initialize()
      requires Valid()
      modifies this`processed, this`storedIndex, this`isInitializing, this`isProcessingMutation, this`observing
      modifies doc`attached
      ensures Valid()
      ensures old(isInitializing) ==>
        && isInitializing && processed == old(processed) && storedIndex == old(storedIndex)
        && isProcessingMutation == old(isProcessingMutation) && observing == old(observing)
        && doc.attached == old(doc.attached)
      ensures !old(isInitializing) ==>
        && !isInitializing && !isProcessingMutation && storedIndex == None
        && (Includes(doc.url, RedditAppsPath) ==>
              var r := RedditScan(doc.nodes, old(doc.attached), {});
              doc.attached == r.attached && processed == r.processed && !observing)
        && (!Includes(doc.url, RedditAppsPath) ==>
              doc.attached == old(doc.attached) && processed == {}
              && observing == (StartsWith(doc.url, GiphyDashboardUrl) && doc.hasBody))
    {
      if isInitializing {
        return;
      }
      isInitializing := true;

      processed := {};
      storedIndex := None;
      isProcessingMutation := false;

      if observing {
        observing := false;
      }

      if Includes(doc.url, RedditAppsPath) {
        var _ := ProcessPage();
      } else if StartsWith(doc.url, GiphyDashboardUrl) {
        ObserveGiphyContent();
      }

      isInitializing := false;
    }

    /** The observer callback, for one batch of mutations. While a scheduled scan is
        pending the batch is ignored. Off the Giphy dashboard the observer disconnects.
        Otherwise, exactly when some added element is or holds an app card, the flag is
        set and one scan is scheduled. */
    method OnMutations(batch: seq<MutationRecord>)
      requires Valid() && observing
      modifies this`isProcessingMutation, this`observing, this`pendingScans
      ensures Valid()
      ensures old(isProcessingMutation) ==>
        isProcessingMutation && observing && pendingScans == old(pendingScans)
      ensures !old(isProcessingMutation) && !StartsWith(doc.url, GiphyDashboardUrl) ==>
        !isProcessingMutation && !observing && pendingScans == old(pendingScans)
      ensures !old(isProcessingMutation) && StartsWith(doc.url, GiphyDashboardUrl) ==>
        && observing
        && isProcessingMutation == HasRelevantAddition(batch)
        && pendingScans == old(pendingScans) + (if HasRelevantAddition(batch) then 1 else 0)
    {
      if isProcessingMutation {
        return;
      }
      if !StartsWith(doc.url, GiphyDashboardUrl) {
        if observing {
          observing := false;
        }
        return;
      }
      var potentiallyRelevantChange := FindRelevantChange(batch);
      if potentiallyRelevantChange {
        isProcessingMutation := true;
        pendingScans := pendingScans + 1;
      }
    }

    /** A timer scheduled by the observer fires: the Giphy scan runs and the mutation
        flag is cleared. */
    method RunScheduledScan()
      requires Valid() && pendingScans > 0
      modifies doc`attached, this`processed, this`storedIndex, this`isProcessingMutation, this`pendingScans
      ensures Valid()
      ensures !isProcessingMutation && pendingScans == old(pendingScans) - 1
      ensures var start := GiphyPass(old(doc.attached), old(processed), [], StoredCounter(old(storedIndex)));
        var r := GiphyFold(doc.nodes, start, QuerySelectorAll(doc.nodes, AppCardSel));
        && doc.attached == r.attached && processed == r.processed
        && storedIndex == StoredAfter(old(storedIndex), start.counter, r.counter)
    {
      var _ := ProcessGiphyDashboard();
      isProcessingMutation := false;
      pendingScans := pendingScans - 1;
    }

    /** `updateQrCodeContainer`: swaps the first button with the index for its QR
        container, as `UpdateQr` describes. */
    method UpdateQrCodeContainer(index: string, imageData: JsString, error: JsString)
      requires Valid()
      modifies doc`attached
      ensures Valid()
      ensures doc.attached == UpdateQr(old(doc.attached), index, imageData, error)
    {
      var button := FirstButtonWith(doc.attached, index);
      if button.None? {
        return;
      }
      var qrCodeContainer := ContainerFor(At(doc.attached, button.value), index, imageData, error);
      doc.attached := ReplaceAt(doc.attached, button.value, qrCodeContainer);
    }

    /** `handleShowQrClick` on the enabled button at `at`, the drawing having ended as
        `render`: the button shows "Loading..." and is disabled, then the update runs
        with the drawn image or with the error text. */
    method ShowQrClick(at: ElemRef, render: RenderOutcome)
      requires Valid() && ValidRef(doc.attached, at)
      requires At(doc.attached, at).ShowButton? && !At(doc.attached, at).loading
      modifies doc`attached
      ensures Valid()
      ensures doc.attached == ShowQr(old(doc.attached), at, render)
    {
      var button := At(doc.attached, at);
      doc.attached := MarkLoading(doc.attached, at);
      match render
      case Rendered(dataUrl) =>
        UpdateQrCodeContainer(button.index, Str(dataUrl), Null);
      case RenderFailed(name, message) =>
        UpdateQrCodeContainer(button.index, Null, Str(ErrorString(name, message)));
    }

    /** `handleHideQrClick` on the image inside the container at `at`. */
    method HideQrClick(at: ElemRef)
      requires Valid() && ValidRef(doc.attached, at)
      requires At(doc.attached, at).QrContainer? && At(doc.attached, at).body.QrImage?
      modifies doc`attached
      ensures Valid()
      ensures doc.attached == HideQr(old(doc.attached), at)
    {
      var qrCodeContainer := At(doc.attached, at);
      var showQrButton := NewButton(qrCodeContainer.clientId, qrCodeContainer.index, RestoredTitle(qrCodeContainer.originalTitle));
      doc.attached := ReplaceAt(doc.attached, at, showQrButton);
    }
  }
}
