/** What one scan of the current content script does to the page, as functions of the
    page and of the annotator's state before the scan. The scans themselves are the
    methods of `ChromeAnnotator.Annotator`; each is proved equal to a fold below, and the
    lemmas here say what the folds mean for every node. */
module ChromeScan {
  import opened Dom
  import opened Keys
  import opened Decimal

  const RedditIndexPrefix: string := "reddit-"
  const RedditAltIndexPrefix: string := "reddit-alt-"
  const GiphyIndexPrefix: string := "giphy-"

  function RedditTitle(key: string): string {
    "Show QR code for Reddit key: " + key
  }

  function GiphyTitle(key: string): string {
    "Show QR code for Giphy key: " + key
  }

  /** The slot index of the `n`-th Giphy key found since the counter was last reset. */
  function GiphyIndex(n: nat): string {
    GiphyIndexPrefix + NatToString(n)
  }

  /** `createShowQrButton(clientId, index, title)`: an enabled "[Show QR]" button with
      the class `rah-show-qr-button` and the given data. */
  function NewButton(clientId: string, index: string, title: string): (b: Elem)
    ensures IsClassedButton(b) && !b.loading && Label(b) == ShowLabel
    ensures b.clientId == clientId && b.index == index && b.title == title
  {
    ShowButton(clientId, index, title, true, false)
  }

  predicate NoDup<T(==)>(xs: seq<T>) {
    forall i, j :: 0 <= i < j < |xs| ==> xs[i] != xs[j]
  }

  function Elements<T>(xs: seq<T>): set<T> {
    set x | x in xs
  }

  predicate Increasing(ps: seq<nat>) {
    forall i, j :: 0 <= i < j < |ps| ==> ps[i] < ps[j]
  }

  /** The positions the three selectors pick are headings and cards, in document
      order. */
  lemma Selections(nodes: seq<PageNode>)
    ensures var primary := QuerySelectorAll(nodes, PrimaryHeadingSel);
      HeadingPositions(nodes, primary) && Increasing(primary)
    ensures var all := QuerySelectorAll(nodes, AnyHeadingSel);
      HeadingPositions(nodes, all) && Increasing(all)
    ensures var cards := QuerySelectorAll(nodes, AppCardSel);
      CardPositions(nodes, cards) && Increasing(cards)
  {
  }

  // ---------------------------------------------------------------- Reddit

  /** The two Reddit passes: client-ID headings first, then every `h3`. */
  datatype Phase = Primary | Fallback

  /** What a pass does with one heading: nothing, insert a button after it, or fail with
      a TypeError (the fallback pass inserts without checking for a parent). */
  datatype Action = Skip | Insert(button: Elem) | Throw

  /** The decision a pass takes for heading `n`, given the processed-set and the elements
      already after the heading. */
  function Decide(phase: Phase, n: PageNode, processed: set<NodeId>, after: seq<Elem>): (a: Action)
    requires n.Heading?
    ensures a.Insert? ==> n.id !in processed && !NextIsClassedButton(after) && n.hasParent
    ensures a.Insert? ==> IsClassedButton(a.button) && !a.button.loading
    ensures a.Insert? ==> a.button.clientId == Trim(n.text) && a.button.title == RedditTitle(Trim(n.text))
    ensures a.Insert? && phase == Primary ==>
      IsRedditClientId(Trim(n.text)) && a.button.index == RedditIndexPrefix + Trim(n.text)
    ensures a.Insert? && phase == Fallback ==>
      IsRedditFallbackKey(Trim(n.text)) && a.button.index == RedditAltIndexPrefix + Trim(n.text)
    ensures a.Throw? <==> phase == Fallback && n.id !in processed && !NextIsClassedButton(after)
                          && IsRedditFallbackKey(Trim(n.text)) && !n.hasParent
    ensures a.Skip? && n.id !in processed && !NextIsClassedButton(after) ==>
      if phase == Primary then !(IsRedditClientId(Trim(n.text)) && n.hasParent)
      else !IsRedditFallbackKey(Trim(n.text))
  {
    if n.id in processed || NextIsClassedButton(after) then Skip
    else
      var text := Trim(n.text);
      match phase
      case Primary =>
        if IsRedditClientId(text) && n.hasParent
        then Insert(NewButton(text, RedditIndexPrefix + text, RedditTitle(text)))
        else Skip
      case Fallback =>
        if !IsRedditFallbackKey(text) then Skip
        else if n.hasParent then Insert(NewButton(text, RedditAltIndexPrefix + text, RedditTitle(text)))
        else Throw
  }

  /** The elements after a heading once decision `a` has been carried out. */
  function Effect(a: Action, after: seq<Elem>): seq<Elem> {
    if a.Insert? then [a.button] + after else after
  }

  /** State of a Reddit scan: the page's elements, the processed-set, the headings that
      got a button on this run (in order) and whether the pass has thrown. */
  datatype RedditPass = RedditPass(attached: seq<seq<Elem>>, processed: set<NodeId>, inserted: seq<NodeId>, threw: bool)

  predicate HeadingPositions(nodes: seq<PageNode>, ps: seq<nat>) {
    forall i :: 0 <= i < |ps| ==> ps[i] < |nodes| && nodes[ps[i]].Heading?
  }

  /** One iteration of the `forEach` over headings. */
  function RedditStep(phase: Phase, nodes: seq<PageNode>, s: RedditPass, p: nat): RedditPass
    requires p < |nodes| && |s.attached| == |nodes| && nodes[p].Heading?
  {
    if s.threw then s
    else match Decide(phase, nodes[p], s.processed, s.attached[p])
      case Skip => s
      case Throw => s.(threw := true)
      case Insert(b) =>
        RedditPass(InsertAfterNode(s.attached, p, b), s.processed + {nodes[p].id}, s.inserted + [nodes[p].id], false)
  }

  /** The `forEach` over the heading positions `ps`. */
  function RedditFold(phase: Phase, nodes: seq<PageNode>, s: RedditPass, ps: seq<nat>): (r: RedditPass)
    requires |s.attached| == |nodes| && HeadingPositions(nodes, ps)
    ensures |r.attached| == |nodes|
    decreases |ps|
  {
    if ps == [] then s
    else RedditStep(phase, nodes, RedditFold(phase, nodes, s, ps[..|ps| - 1]), ps[|ps| - 1])
  }

  /** `processPage` on the Reddit apps page: the primary pass, and the fallback pass over
      every `h3` when the primary pass inserted nothing on this run. */
  function RedditScan(nodes: seq<PageNode>, attached: seq<seq<Elem>>, processed: set<NodeId>): (r: RedditPass)
    requires |attached| == |nodes|
    ensures |r.attached| == |nodes|
  {
    var first := RedditFold(Primary, nodes, RedditPass(attached, processed, [], false), QuerySelectorAll(nodes, PrimaryHeadingSel));
    if first.inserted != [] then first
    else RedditFold(Fallback, nodes, first, QuerySelectorAll(nodes, AnyHeadingSel))
  }

  /** The pass over the first `i + 1` positions is the pass over the first `i` followed
      by one step. */
  lemma RedditFoldSnoc(phase: Phase, nodes: seq<PageNode>, s: RedditPass, ps: seq<nat>, i: nat)
    requires |s.attached| == |nodes| && HeadingPositions(nodes, ps) && i < |ps|
    ensures RedditFold(phase, nodes, s, ps[..i + 1]) == RedditStep(phase, nodes, RedditFold(phase, nodes, s, ps[..i]), ps[i])
  {
    assert ps[..i + 1][..i] == ps[..i];
  }

  /** Once a pass has thrown, the rest of the `forEach` does not run: the pass over all
      of `ps` ends in the state in which it threw. */
  lemma {:induction false} RedditFoldAfterThrow(phase: Phase, nodes: seq<PageNode>, s: RedditPass, ps: seq<nat>, i: nat)
    requires |s.attached| == |nodes| && HeadingPositions(nodes, ps) && i <= |ps|
    requires RedditFold(phase, nodes, s, ps[..i]).threw
    ensures RedditFold(phase, nodes, s, ps) == RedditFold(phase, nodes, s, ps[..i])
    decreases |ps|
  {
    if i == |ps| {
      assert ps[..i] == ps;
    } else {
      var ps' := ps[..|ps| - 1];
      assert ps'[..i] == ps[..i];
      RedditFoldAfterThrow(phase, nodes, s, ps', i);
    }
  }

  /** Headings outside `ps` keep their elements. */
  lemma {:induction false} RedditFoldUntouched(phase: Phase, nodes: seq<PageNode>, s: RedditPass, ps: seq<nat>)
    requires |s.attached| == |nodes| && HeadingPositions(nodes, ps)
    ensures forall p :: 0 <= p < |nodes| && p !in ps ==> RedditFold(phase, nodes, s, ps).attached[p] == s.attached[p]
    decreases |ps|
  {
    if ps != [] {
      var ps' := ps[..|ps| - 1];
      assert forall p :: p in ps' ==> p in ps;
      RedditFoldUntouched(phase, nodes, s, ps');
    }
  }

  /** One step records at most its own heading, and only one that was not processed. */
  lemma RedditStepRecords(phase: Phase, nodes: seq<PageNode>, s: RedditPass, p: nat)
    requires p < |nodes| && |s.attached| == |nodes| && nodes[p].Heading?
    ensures var r := RedditStep(phase, nodes, s, p);
      || (r.inserted == s.inserted && r.processed == s.processed && r.attached == s.attached)
      || (r.inserted == s.inserted + [nodes[p].id] && nodes[p].id !in s.processed
          && r.processed == s.processed + {nodes[p].id} && |r.attached[p]| == |s.attached[p]| + 1
          && r.attached[p][1..] == s.attached[p]
          && forall q :: 0 <= q < |nodes| && q != p ==> r.attached[q] == s.attached[q])
  {
  }

  lemma NoDupAppend<T>(xs: seq<T>, x: T)
    requires NoDup(xs) && x !in xs
    ensures NoDup(xs + [x]) && Elements(xs + [x]) == Elements(xs) + {x}
  {
  }

  /** Recording one more input that was not processed keeps the bookkeeping of a pass:
      no input recorded twice, the processed-set is the old one plus the recorded
      inputs, and none of those was processed before the pass. */
  lemma RecordOne<T>(base: set<T>, ins0: seq<T>, proc0: set<T>, ins: seq<T>, proc: set<T>, id: T)
    requires NoDup(ins0) && proc0 == base + Elements(ins0) && Elements(ins0) !! base
    requires id !in proc0 && ins == ins0 + [id] && proc == proc0 + {id}
    ensures NoDup(ins) && proc == base + Elements(ins) && Elements(ins) !! base
  {
    NoDupAppend(ins0, id);
  }

  /** The processed-set grows by exactly the headings recorded on this run, none of which
      was processed before, and none is recorded twice. */
  lemma {:induction false} RedditFoldProcessed(phase: Phase, nodes: seq<PageNode>, s: RedditPass, ps: seq<nat>)
    requires |s.attached| == |nodes| && HeadingPositions(nodes, ps)
    requires s.inserted == []
    ensures var r := RedditFold(phase, nodes, s, ps);
      NoDup(r.inserted) && r.processed == s.processed + Elements(r.inserted) && Elements(r.inserted) !! s.processed
    decreases |ps|
  {
    if ps != [] {
      var ps' := ps[..|ps| - 1];
      var q := ps[|ps| - 1];
      RedditFoldProcessed(phase, nodes, s, ps');
      var r0 := RedditFold(phase, nodes, s, ps');
      RedditStepRecords(phase, nodes, r0, q);
      var r := RedditStep(phase, nodes, r0, q);
      if r.inserted != r0.inserted {
        NoDupAppend(r0.inserted, nodes[q].id);
      }
    }
  }

  /** A heading is recorded on this run exactly when its elements changed. */
  lemma {:induction false} RedditFoldRecorded(phase: Phase, nodes: seq<PageNode>, s: RedditPass, ps: seq<nat>)
    requires DistinctIds(nodes) && |s.attached| == |nodes|
    requires HeadingPositions(nodes, ps) && Increasing(ps)
    requires s.inserted == []
    ensures var r := RedditFold(phase, nodes, s, ps);
      forall p :: 0 <= p < |nodes| && nodes[p].Heading? ==> (nodes[p].id in r.inserted <==> r.attached[p] != s.attached[p])
    decreases |ps|
  {
    if ps != [] {
      var ps' := ps[..|ps| - 1];
      var q := ps[|ps| - 1];
      assert q !in ps';
      RedditFoldRecorded(phase, nodes, s, ps');
      RedditFoldUntouched(phase, nodes, s, ps');
      var r0 := RedditFold(phase, nodes, s, ps');
      RedditRecordedStep(phase, nodes, s.attached, r0, RedditFold(phase, nodes, s, ps), q);
    }
  }

  /** One step keeps "recorded exactly when changed" relative to the elements `base`
      before the pass, as long as the heading it visits is still as it was in `base`. */
  lemma RedditRecordedStep(phase: Phase, nodes: seq<PageNode>, base: seq<seq<Elem>>, r0: RedditPass, r: RedditPass, q: nat)
    requires DistinctIds(nodes) && |r0.attached| == |nodes| && |base| == |nodes|
    requires q < |nodes| && nodes[q].Heading? && r0.attached[q] == base[q]
    requires forall p :: 0 <= p < |nodes| && nodes[p].Heading? ==> (nodes[p].id in r0.inserted <==> r0.attached[p] != base[p])
    requires r == RedditStep(phase, nodes, r0, q)
    ensures forall p :: 0 <= p < |nodes| && nodes[p].Heading? ==> (nodes[p].id in r.inserted <==> r.attached[p] != base[p])
  {
    RedditStepRecords(phase, nodes, r0, q);
    if r.inserted != r0.inserted {
      assert r.inserted == r0.inserted + [nodes[q].id];
      assert r.attached[q] == [r.attached[q][0]] + r0.attached[q];
      forall p | 0 <= p < |nodes| && nodes[p].Heading?
        ensures nodes[p].id in r.inserted <==> r.attached[p] != base[p]
      {
        if p != q {
          assert NodeIdOf(nodes[p]) != NodeIdOf(nodes[q]);
        }
      }
    }
  }

  /** The step at the last position of the pass decides as it would have on the state
      before the pass: earlier steps touched neither its elements nor its identity. */
  lemma RedditSameDecision(phase: Phase, nodes: seq<PageNode>, s: RedditPass, ps: seq<nat>)
    requires DistinctIds(nodes) && |s.attached| == |nodes|
    requires HeadingPositions(nodes, ps) && Increasing(ps) && ps != []
    requires s.inserted == []
    ensures var q := ps[|ps| - 1];
      var r0 := RedditFold(phase, nodes, s, ps[..|ps| - 1]);
      Decide(phase, nodes[q], r0.processed, r0.attached[q]) == Decide(phase, nodes[q], s.processed, s.attached[q])
  {
    var ps' := ps[..|ps| - 1];
    var q := ps[|ps| - 1];
    assert q !in ps';
    RedditFoldUntouched(phase, nodes, s, ps');
    RedditFoldRecorded(phase, nodes, s, ps');
    RedditFoldProcessed(phase, nodes, s, ps');
  }

  /** Each heading of the pass ends with its elements unchanged or with exactly the
      button its decision names, judged on the state before the pass; when the pass did
      not throw, every heading of the pass ends with its decision carried out. */
  lemma {:induction false} RedditFoldDecided(phase: Phase, nodes: seq<PageNode>, s: RedditPass, ps: seq<nat>)
    requires DistinctIds(nodes) && |s.attached| == |nodes|
    requires HeadingPositions(nodes, ps) && Increasing(ps)
    requires s.inserted == [] && !s.threw
    ensures var r := RedditFold(phase, nodes, s, ps);
      && (forall p :: p in ps ==>
            r.attached[p] == s.attached[p]
            || r.attached[p] == Effect(Decide(phase, nodes[p], s.processed, s.attached[p]), s.attached[p]))
      && (!r.threw ==> forall p :: p in ps ==>
            r.attached[p] == Effect(Decide(phase, nodes[p], s.processed, s.attached[p]), s.attached[p]))
    decreases |ps|
  {
    if ps != [] {
      var ps' := ps[..|ps| - 1];
      var q := ps[|ps| - 1];
      assert forall p :: p in ps <==> p in ps' || p == q;
      RedditFoldDecided(phase, nodes, s, ps');
      RedditFoldUntouched(phase, nodes, s, ps');
      RedditSameDecision(phase, nodes, s, ps);
    }
  }

  /** What a pass over headings `ps` does to every node. A node outside `ps` keeps its
      elements. A heading in `ps` either keeps its elements or receives exactly the one
      button its decision names, judged on the state before the pass; when the pass did
      not throw every heading in `ps` received its decision. A heading is recorded as
      processed exactly when it received a button, and no heading is recorded twice. */
  lemma RedditFoldEffect(phase: Phase, nodes: seq<PageNode>, s: RedditPass, ps: seq<nat>)
    requires DistinctIds(nodes) && |s.attached| == |nodes|
    requires HeadingPositions(nodes, ps) && Increasing(ps)
    requires s.inserted == [] && !s.threw
    ensures var r := RedditFold(phase, nodes, s, ps);
      && NoDup(r.inserted)
      && r.processed == s.processed + Elements(r.inserted)
      && Elements(r.inserted) !! s.processed
      && (forall p :: 0 <= p < |nodes| && p !in ps ==> r.attached[p] == s.attached[p])
      && (forall p :: 0 <= p < |nodes| && nodes[p].Heading? ==>
            (nodes[p].id in r.inserted <==> r.attached[p] != s.attached[p]))
      && (forall p :: p in ps ==>
            r.attached[p] == s.attached[p]
            || r.attached[p] == Effect(Decide(phase, nodes[p], s.processed, s.attached[p]), s.attached[p]))
      && (!r.threw ==> forall p :: p in ps ==>
            r.attached[p] == Effect(Decide(phase, nodes[p], s.processed, s.attached[p]), s.attached[p]))
  {
    RedditFoldUntouched(phase, nodes, s, ps);
    RedditFoldProcessed(phase, nodes, s, ps);
    RedditFoldRecorded(phase, nodes, s, ps);
    RedditFoldDecided(phase, nodes, s, ps);
  }

  /** `processPage` on the apps page, node by node. The fallback pass runs exactly when
      the primary pass inserted nothing, which includes the case where every client-ID
      heading was already processed or already had its button. Every node ends with its
      elements unchanged or with exactly one new button, the one its pass decided on
      from the state before the scan; the headings that got one are exactly the ones
      recorded in `inserted`, which holds no node twice and none that was processed.
      When no client-ID heading is due for a button and the fallback does not throw,
      every heading gets exactly what the fallback decides for it. */
  lemma RedditScanEffect(nodes: seq<PageNode>, attached: seq<seq<Elem>>, processed: set<NodeId>)
    requires DistinctIds(nodes) && |attached| == |nodes|
    ensures var r := RedditScan(nodes, attached, processed);
      && NoDup(r.inserted)
      && r.processed == processed + Elements(r.inserted)
      && Elements(r.inserted) !! processed
      && (forall p :: 0 <= p < |nodes| && !nodes[p].Heading? ==> r.attached[p] == attached[p])
      && (forall p :: 0 <= p < |nodes| && nodes[p].Heading? ==>
            (nodes[p].id in r.inserted <==> r.attached[p] != attached[p]))
      && (forall p :: 0 <= p < |nodes| && nodes[p].Heading? && nodes[p].primary ==>
            Decide(Primary, nodes[p], processed, attached[p]).Skip?
            || r.attached[p] == Effect(Decide(Primary, nodes[p], processed, attached[p]), attached[p]))
      && ((exists p :: 0 <= p < |nodes| && nodes[p].Heading? && nodes[p].primary
                       && Decide(Primary, nodes[p], processed, attached[p]).Insert?)
          ==> (forall p :: 0 <= p < |nodes| && nodes[p].Heading? && nodes[p].primary ==>
                 r.attached[p] == Effect(Decide(Primary, nodes[p], processed, attached[p]), attached[p]))
              && (forall p :: 0 <= p < |nodes| && nodes[p].Heading? && !nodes[p].primary ==>
                 r.attached[p] == attached[p]))
      && ((forall p :: 0 <= p < |nodes| && nodes[p].Heading? && nodes[p].primary ==>
                 !Decide(Primary, nodes[p], processed, attached[p]).Insert?)
          ==> forall p :: 0 <= p < |nodes| && nodes[p].Heading? ==>
                 r.attached[p] == attached[p]
                 || r.attached[p] == Effect(Decide(Fallback, nodes[p], processed, attached[p]), attached[p]))
      && ((forall p :: 0 <= p < |nodes| && nodes[p].Heading? && nodes[p].primary ==>
                 !Decide(Primary, nodes[p], processed, attached[p]).Insert?)
          ==> !r.threw ==> forall p :: 0 <= p < |nodes| && nodes[p].Heading? ==>
                 r.attached[p] == Effect(Decide(Fallback, nodes[p], processed, attached[p]), attached[p]))
  {
    var s := RedditPass(attached, processed, [], false);
    var primary := QuerySelectorAll(nodes, PrimaryHeadingSel);
    Selections(nodes);
    var first := RedditFold(Primary, nodes, s, primary);
    if first.inserted == [] {
      PrimaryIdle(nodes, attached, processed);
      RedditFoldEffect(Fallback, nodes, s, QuerySelectorAll(nodes, AnyHeadingSel));
    } else {
      PrimaryBusy(nodes, attached, processed);
      RedditFoldProcessed(Primary, nodes, s, primary);
      RedditFoldRecorded(Primary, nodes, s, primary);
    }
  }

  /** A primary pass that inserts nothing leaves the state as it was, and it does so
      exactly when no client-ID heading is due for a button. */
  lemma PrimaryIdle(nodes: seq<PageNode>, attached: seq<seq<Elem>>, processed: set<NodeId>)
    requires DistinctIds(nodes) && |attached| == |nodes|
    requires RedditFold(Primary, nodes, RedditPass(attached, processed, [], false),
                        QuerySelectorAll(nodes, PrimaryHeadingSel)).inserted == []
    ensures RedditFold(Primary, nodes, RedditPass(attached, processed, [], false),
                       QuerySelectorAll(nodes, PrimaryHeadingSel)) == RedditPass(attached, processed, [], false)
    ensures forall p :: 0 <= p < |nodes| && nodes[p].Heading? && nodes[p].primary ==>
      !Decide(Primary, nodes[p], processed, attached[p]).Insert?
  {
    PrimaryIdleKeeps(nodes, attached, processed);
    var s := RedditPass(attached, processed, [], false);
    var primary := QuerySelectorAll(nodes, PrimaryHeadingSel);
    Selections(nodes);
    PrimaryNeverThrows(nodes, s, primary);
    RedditFoldDecided(Primary, nodes, s, primary);
    SelectedMatch(nodes, PrimaryHeadingSel);
  }

  /** A primary pass that inserts nothing changes no element and processes nothing. */
  lemma PrimaryIdleKeeps(nodes: seq<PageNode>, attached: seq<seq<Elem>>, processed: set<NodeId>)
    requires DistinctIds(nodes) && |attached| == |nodes|
    requires RedditFold(Primary, nodes, RedditPass(attached, processed, [], false),
                        QuerySelectorAll(nodes, PrimaryHeadingSel)).inserted == []
    ensures RedditFold(Primary, nodes, RedditPass(attached, processed, [], false),
                       QuerySelectorAll(nodes, PrimaryHeadingSel)) == RedditPass(attached, processed, [], false)
  {
    var s := RedditPass(attached, processed, [], false);
    var primary := QuerySelectorAll(nodes, PrimaryHeadingSel);
    Selections(nodes);
    PrimaryNeverThrows(nodes, s, primary);
    RedditFoldProcessed(Primary, nodes, s, primary);
    IdleFoldKeeps(Primary, nodes, s, primary);
  }

  /** A pass over headings that records nothing leaves every element as it was. */
  lemma IdleFoldKeeps(phase: Phase, nodes: seq<PageNode>, s: RedditPass, ps: seq<nat>)
    requires DistinctIds(nodes) && |s.attached| == |nodes|
    requires HeadingPositions(nodes, ps) && Increasing(ps)
    requires s.inserted == [] && RedditFold(phase, nodes, s, ps).inserted == []
    ensures RedditFold(phase, nodes, s, ps).attached == s.attached
  {
    var r := RedditFold(phase, nodes, s, ps);
    RedditFoldUntouched(phase, nodes, s, ps);
    RedditFoldRecorded(phase, nodes, s, ps);
    forall p | 0 <= p < |nodes|
      ensures r.attached[p] == s.attached[p]
    {
      if p in ps {
        assert nodes[p].Heading?;
      }
    }
  }

  /** A primary pass that inserts something is the whole scan: some client-ID heading was
      due, every client-ID heading ends as its decision says, and the other headings keep
      their elements. */
  lemma PrimaryBusy(nodes: seq<PageNode>, attached: seq<seq<Elem>>, processed: set<NodeId>)
    requires DistinctIds(nodes) && |attached| == |nodes|
    requires RedditFold(Primary, nodes, RedditPass(attached, processed, [], false),
                        QuerySelectorAll(nodes, PrimaryHeadingSel)).inserted != []
    ensures var r := RedditFold(Primary, nodes, RedditPass(attached, processed, [], false),
                                QuerySelectorAll(nodes, PrimaryHeadingSel));
      && !r.threw
      && (exists p :: 0 <= p < |nodes| && nodes[p].Heading? && nodes[p].primary
                      && Decide(Primary, nodes[p], processed, attached[p]).Insert?)
      && (forall p :: 0 <= p < |nodes| && nodes[p].Heading? && nodes[p].primary ==>
            r.attached[p] == Effect(Decide(Primary, nodes[p], processed, attached[p]), attached[p]))
      && (forall p :: 0 <= p < |nodes| && !(nodes[p].Heading? && nodes[p].primary) ==> r.attached[p] == attached[p])
  {
    var s := RedditPass(attached, processed, [], false);
    var primary := QuerySelectorAll(nodes, PrimaryHeadingSel);
    Selections(nodes);
    var first := RedditFold(Primary, nodes, s, primary);
    PrimaryNeverThrows(nodes, s, primary);
    RedditFoldUntouched(Primary, nodes, s, primary);
    RedditFoldDecided(Primary, nodes, s, primary);
    SelectedMatch(nodes, PrimaryHeadingSel);
    var w := first.inserted[0];
    var p := InsertedPosition(nodes, s, primary, w);
  }

  /** The primary pass checks for a parent before inserting, so it never throws. */
  lemma {:induction false} PrimaryNeverThrows(nodes: seq<PageNode>, s: RedditPass, ps: seq<nat>)
    requires |s.attached| == |nodes| && HeadingPositions(nodes, ps) && !s.threw
    ensures !RedditFold(Primary, nodes, s, ps).threw
    decreases |ps|
  {
    if ps != [] {
      PrimaryNeverThrows(nodes, s, ps[..|ps| - 1]);
    }
  }

  /** Every heading recorded as having received a button sits at a position of the pass
      whose decision there was to insert. */
  lemma {:induction false} InsertedPosition(nodes: seq<PageNode>, s: RedditPass, ps: seq<nat>, w: NodeId) returns (p: nat)
    requires DistinctIds(nodes) && |s.attached| == |nodes|
    requires HeadingPositions(nodes, ps) && Increasing(ps)
    requires s.inserted == [] && !s.threw
    requires w in RedditFold(Primary, nodes, s, ps).inserted
    ensures p in ps && nodes[p].Heading? && nodes[p].id == w
    ensures Decide(Primary, nodes[p], s.processed, s.attached[p]).Insert?
    decreases |ps|
  {
    var ps' := ps[..|ps| - 1];
    var q := ps[|ps| - 1];
    var r0 := RedditFold(Primary, nodes, s, ps');
    RedditFoldEffect(Primary, nodes, s, ps');
    if w in r0.inserted {
      p := InsertedPosition(nodes, s, ps', w);
    } else {
      p := q;
      assert r0.attached[q] == s.attached[q];
      assert nodes[q].id !in r0.inserted;
      assert (nodes[q].id in r0.processed) == (nodes[q].id in s.processed);
    }
  }

  // ---------------------------------------------------------------- Giphy

  /** What the Giphy scan does with one card: nothing, or take the next counter value
      for the card's key and, when the edit link has a parent, insert the button. */
  datatype GiphyAction = GiphySkip | Consume(key: string, insert: bool)

  /** The decision for card `n`, given the processed-set and the elements already
      before its edit link. */
  function GiphyDecide(n: PageNode, processed: set<NodeId>, before: seq<Elem>): (a: GiphyAction)
    requires n.AppCard?
    ensures a.Consume? <==>
      && n.input.Some? && n.editLink.Some?
      && n.input.value.id !in processed && !PrevIsClassedButton(before)
      && IsGiphyKey(Trim(n.input.value.value))
    ensures a.Consume? ==> a.key == Trim(n.input.value.value) && a.insert == n.editLink.value.hasParent
  {
    if n.input.None? || n.editLink.None? || n.input.value.id in processed || PrevIsClassedButton(before) then GiphySkip
    else
      var key := Trim(n.input.value.value);
      if IsGiphyKey(key) then Consume(key, n.editLink.value.hasParent) else GiphySkip
  }

  /** State of a Giphy scan: elements, processed-set, inputs that got a button on this
      run, and the local `giphyIndex` counter. */
  datatype GiphyPass = GiphyPass(attached: seq<seq<Elem>>, processed: set<NodeId>, inserted: seq<NodeId>, counter: nat)

  predicate CardPositions(nodes: seq<PageNode>, ps: seq<nat>) {
    forall i :: 0 <= i < |ps| ==> ps[i] < |nodes| && nodes[ps[i]].AppCard?
  }

  /** The elements before a card's edit link once decision `a` has been carried out
      with counter value `n`. */
  function GiphyEffect(a: GiphyAction, n: nat, before: seq<Elem>): seq<Elem> {
    if a.Consume? && a.insert then before + [NewButton(a.key, GiphyIndex(n), GiphyTitle(a.key))] else before
  }

  /** One iteration of the `forEach` over cards. */
  function GiphyStep(nodes: seq<PageNode>, s: GiphyPass, p: nat): GiphyPass
    requires p < |nodes| && |s.attached| == |nodes| && nodes[p].AppCard?
  {
    match GiphyDecide(nodes[p], s.processed, s.attached[p])
    case GiphySkip => s
    case Consume(key, insert) =>
      if insert then
        var id := nodes[p].input.value.id;
        GiphyPass(InsertBeforeLink(s.attached, p, NewButton(key, GiphyIndex(s.counter), GiphyTitle(key))),
                  s.processed + {id}, s.inserted + [id], s.counter + 1)
      else s.(counter := s.counter + 1)
  }

  function GiphyFold(nodes: seq<PageNode>, s: GiphyPass, ps: seq<nat>): (r: GiphyPass)
    requires |s.attached| == |nodes| && CardPositions(nodes, ps)
    ensures |r.attached| == |nodes|
    decreases |ps|
  {
    if ps == [] then s
    else GiphyStep(nodes, GiphyFold(nodes, s, ps[..|ps| - 1]), ps[|ps| - 1])
  }

  /** The scan over the first `i + 1` cards is the scan over the first `i` followed by
      one step. */
  lemma GiphyFoldSnoc(nodes: seq<PageNode>, s: GiphyPass, ps: seq<nat>, i: nat)
    requires |s.attached| == |nodes| && CardPositions(nodes, ps) && i < |ps|
    ensures GiphyFold(nodes, s, ps[..i + 1]) == GiphyStep(nodes, GiphyFold(nodes, s, ps[..i]), ps[i])
  {
    assert ps[..i + 1][..i] == ps[..i];
  }

  /** The cards among `ps` whose key is taken, in order, each judged on the state
      before the scan. */
  function Consumers(nodes: seq<PageNode>, processed: set<NodeId>, attached: seq<seq<Elem>>, ps: seq<nat>): (cs: seq<nat>)
    requires |attached| == |nodes| && CardPositions(nodes, ps)
    ensures forall i :: 0 <= i < |cs| ==> cs[i] in ps && GiphyDecide(nodes[cs[i]], processed, attached[cs[i]]).Consume?
    ensures forall p :: p in ps && GiphyDecide(nodes[p], processed, attached[p]).Consume? ==> p in cs
    decreases |ps|
  {
    if ps == [] then []
    else
      var last := ps[|ps| - 1];
      assert forall p :: p in ps ==> p in ps[..|ps| - 1] || p == last;
      Consumers(nodes, processed, attached, ps[..|ps| - 1])
        + (if GiphyDecide(nodes[last], processed, attached[last]).Consume? then [last] else [])
  }

  /** One step records at most its own card's input, and only one that was not
      processed; the counter moves by one exactly when the card's key is taken. */
  lemma GiphyStepRecords(nodes: seq<PageNode>, s: GiphyPass, p: nat)
    requires p < |nodes| && |s.attached| == |nodes| && nodes[p].AppCard?
    ensures var d := GiphyDecide(nodes[p], s.processed, s.attached[p]);
      var r := GiphyStep(nodes, s, p);
      !(d.Consume? && d.insert) ==> r.inserted == s.inserted && r.processed == s.processed && r.attached == s.attached
    ensures var d := GiphyDecide(nodes[p], s.processed, s.attached[p]);
      var r := GiphyStep(nodes, s, p);
      d.Consume? && d.insert ==>
        && nodes[p].input.Some? && nodes[p].input.value.id !in s.processed
        && r.inserted == s.inserted + [nodes[p].input.value.id]
        && r.processed == s.processed + {nodes[p].input.value.id}
        && r.attached[p] != s.attached[p]
  {
    var d := GiphyDecide(nodes[p], s.processed, s.attached[p]);
    if d.Consume? && d.insert {
      var r := GiphyStep(nodes, s, p);
      assert |r.attached[p]| == |s.attached[p]| + 1;
    }
  }

  /** Cards outside `ps` keep their elements. */
  lemma {:induction false} GiphyFoldUntouched(nodes: seq<PageNode>, s: GiphyPass, ps: seq<nat>)
    requires |s.attached| == |nodes| && CardPositions(nodes, ps)
    ensures forall p :: 0 <= p < |nodes| && p !in ps ==> GiphyFold(nodes, s, ps).attached[p] == s.attached[p]
    decreases |ps|
  {
    if ps != [] {
      var ps' := ps[..|ps| - 1];
      assert forall p :: p in ps' ==> p in ps;
      GiphyFoldUntouched(nodes, s, ps');
      GiphyStepAttached(nodes, GiphyFold(nodes, s, ps'), ps[|ps| - 1]);
    }
  }

  /** The processed-set grows by exactly the inputs recorded on this run, none of which
      was processed before, and none is recorded twice. */
  lemma {:induction false} GiphyFoldProcessed(nodes: seq<PageNode>, s: GiphyPass, ps: seq<nat>)
    requires |s.attached| == |nodes| && CardPositions(nodes, ps)
    requires s.inserted == []
    ensures var r := GiphyFold(nodes, s, ps);
      NoDup(r.inserted) && r.processed == s.processed + Elements(r.inserted) && Elements(r.inserted) !! s.processed
    decreases |ps|
  {
    if ps != [] {
      var ps' := ps[..|ps| - 1];
      var q := ps[|ps| - 1];
      GiphyFoldProcessed(nodes, s, ps');
      var r0 := GiphyFold(nodes, s, ps');
      GiphyStepRecords(nodes, r0, q);
      var r := GiphyFold(nodes, s, ps);
      assert r == GiphyStep(nodes, r0, q);
      var d := GiphyDecide(nodes[q], r0.processed, r0.attached[q]);
      if d.Consume? && d.insert {
        RecordOne(s.processed, r0.inserted, r0.processed, r.inserted, r.processed, nodes[q].input.value.id);
      }
    }
  }

  /** An input is recorded on this run exactly when its card's elements changed. */
  lemma {:induction false} GiphyFoldRecorded(nodes: seq<PageNode>, s: GiphyPass, ps: seq<nat>)
    requires DistinctIds(nodes) && |s.attached| == |nodes|
    requires CardPositions(nodes, ps) && Increasing(ps)
    requires s.inserted == []
    ensures var r := GiphyFold(nodes, s, ps);
      forall p :: 0 <= p < |nodes| && nodes[p].AppCard? && nodes[p].input.Some? ==>
        (nodes[p].input.value.id in r.inserted <==> r.attached[p] != s.attached[p])
    decreases |ps|
  {
    if ps != [] {
      var ps' := ps[..|ps| - 1];
      var q := ps[|ps| - 1];
      assert q !in ps';
      GiphyFoldRecorded(nodes, s, ps');
      GiphyFoldUntouched(nodes, s, ps');
      GiphyRecordedStep(nodes, s.attached, GiphyFold(nodes, s, ps'), q);
    }
  }

  /** One step keeps "recorded exactly when changed" relative to the elements `base`
      before the pass, as long as the card it visits is still as it was in `base`. */
  lemma GiphyRecordedStep(nodes: seq<PageNode>, base: seq<seq<Elem>>, r0: GiphyPass, q: nat)
    requires DistinctIds(nodes) && |r0.attached| == |nodes| && |base| == |nodes|
    requires q < |nodes| && nodes[q].AppCard? && r0.attached[q] == base[q]
    requires forall p :: 0 <= p < |nodes| && nodes[p].AppCard? && nodes[p].input.Some? ==>
      (nodes[p].input.value.id in r0.inserted <==> r0.attached[p] != base[p])
    ensures var r := GiphyStep(nodes, r0, q);
      forall p :: 0 <= p < |nodes| && nodes[p].AppCard? && nodes[p].input.Some? ==>
        (nodes[p].input.value.id in r.inserted <==> r.attached[p] != base[p])
  {
    GiphyStepRecords(nodes, r0, q);
    GiphyStepAttached(nodes, r0, q);
    var r := GiphyStep(nodes, r0, q);
    var d := GiphyDecide(nodes[q], r0.processed, r0.attached[q]);
    if d.Consume? && d.insert {
      forall p | 0 <= p < |nodes| && nodes[p].AppCard? && nodes[p].input.Some?
        ensures nodes[p].input.value.id in r.inserted <==> r.attached[p] != base[p]
      {
        if p != q {
          assert NodeIdOf(nodes[p]) != NodeIdOf(nodes[q]);
          assert r.attached[p] == r0.attached[p];
          assert nodes[p].input.value.id in r.inserted <==> nodes[p].input.value.id in r0.inserted;
        }
      }
    }
  }

  /** The step at the last card of the pass decides as it would have on the state before
      the pass. */
  lemma GiphySameDecision(nodes: seq<PageNode>, s: GiphyPass, ps: seq<nat>)
    requires DistinctIds(nodes) && |s.attached| == |nodes|
    requires CardPositions(nodes, ps) && Increasing(ps) && ps != []
    requires s.inserted == []
    ensures var q := ps[|ps| - 1];
      var r0 := GiphyFold(nodes, s, ps[..|ps| - 1]);
      r0.attached[q] == s.attached[q]
      && GiphyDecide(nodes[q], r0.processed, r0.attached[q]) == GiphyDecide(nodes[q], s.processed, s.attached[q])
  {
    var ps' := ps[..|ps| - 1];
    var q := ps[|ps| - 1];
    assert q !in ps';
    GiphyFoldUntouched(nodes, s, ps');
    GiphyFoldRecorded(nodes, s, ps');
    GiphyFoldProcessed(nodes, s, ps');
  }

  /** The counter moves by one exactly when the card's key is taken. */
  lemma GiphyStepCounter(nodes: seq<PageNode>, s: GiphyPass, p: nat)
    requires p < |nodes| && |s.attached| == |nodes| && nodes[p].AppCard?
    ensures GiphyStep(nodes, s, p).counter == s.counter + (if GiphyDecide(nodes[p], s.processed, s.attached[p]).Consume? then 1 else 0)
  {
  }

  /** The card's elements after one step; no other card's elements change. */
  lemma GiphyStepAttached(nodes: seq<PageNode>, s: GiphyPass, p: nat)
    requires p < |nodes| && |s.attached| == |nodes| && nodes[p].AppCard?
    ensures var r := GiphyStep(nodes, s, p);
      && r.attached[p] == GiphyEffect(GiphyDecide(nodes[p], s.processed, s.attached[p]), s.counter, s.attached[p])
      && forall q :: 0 <= q < |nodes| && q != p ==> r.attached[q] == s.attached[q]
  {
  }

  /** The consumers of a longer pass are those of the shorter one, then possibly the last
      card, which comes after all of them. */
  lemma ConsumersSnoc(nodes: seq<PageNode>, processed: set<NodeId>, attached: seq<seq<Elem>>, ps: seq<nat>)
    requires |attached| == |nodes| && CardPositions(nodes, ps) && Increasing(ps) && ps != []
    ensures var q := ps[|ps| - 1];
      var cs0 := Consumers(nodes, processed, attached, ps[..|ps| - 1]);
      && Consumers(nodes, processed, attached, ps)
         == cs0 + (if GiphyDecide(nodes[q], processed, attached[q]).Consume? then [q] else [])
      && forall i :: 0 <= i < |cs0| ==> cs0[i] < q && nodes[cs0[i]].AppCard?
  {
    var ps' := ps[..|ps| - 1];
    var q := ps[|ps| - 1];
    var cs0 := Consumers(nodes, processed, attached, ps');
    forall i | 0 <= i < |cs0|
      ensures cs0[i] < q && nodes[cs0[i]].AppCard?
    {
      var k :| 0 <= k < |ps'| && ps'[k] == cs0[i];
      assert ps[k] == ps'[k];
    }
  }

  /** The cards whose key is taken come in document order, one counter value each. */
  lemma {:induction false} GiphyFoldCounted(nodes: seq<PageNode>, s: GiphyPass, ps: seq<nat>)
    requires DistinctIds(nodes) && |s.attached| == |nodes|
    requires CardPositions(nodes, ps) && Increasing(ps)
    requires s.inserted == []
    ensures var cs := Consumers(nodes, s.processed, s.attached, ps);
      GiphyFold(nodes, s, ps).counter == s.counter + |cs| && Increasing(cs)
    decreases |ps|
  {
    if ps != [] {
      var ps' := ps[..|ps| - 1];
      var q := ps[|ps| - 1];
      GiphyFoldCounted(nodes, s, ps');
      GiphySameDecision(nodes, s, ps);
      GiphyStepCounter(nodes, GiphyFold(nodes, s, ps'), q);
      ConsumersSnoc(nodes, s.processed, s.attached, ps);
    }
  }

  /** A card of the pass whose key is not taken keeps its elements. */
  lemma {:induction false} GiphyFoldSkipped(nodes: seq<PageNode>, s: GiphyPass, ps: seq<nat>)
    requires DistinctIds(nodes) && |s.attached| == |nodes|
    requires CardPositions(nodes, ps) && Increasing(ps)
    requires s.inserted == []
    ensures var r := GiphyFold(nodes, s, ps);
      forall p :: p in ps && p !in Consumers(nodes, s.processed, s.attached, ps) ==> r.attached[p] == s.attached[p]
    decreases |ps|
  {
    if ps != [] {
      var ps' := ps[..|ps| - 1];
      var q := ps[|ps| - 1];
      GiphyFoldSkipped(nodes, s, ps');
      GiphySameDecision(nodes, s, ps);
      var r0 := GiphyFold(nodes, s, ps');
      GiphyStepAttached(nodes, r0, q);
      ConsumersSnoc(nodes, s.processed, s.attached, ps);
      var r := GiphyStep(nodes, r0, q);
      var cs0 := Consumers(nodes, s.processed, s.attached, ps');
      var cs := Consumers(nodes, s.processed, s.attached, ps);
      forall p | p in ps && p !in cs
        ensures r.attached[p] == s.attached[p]
      {
        if p != q {
          assert p in ps';
          assert p !in cs0;
        }
      }
    }
  }

  /** The `i`-th card whose key is taken ends with the button numbered `start + i`, or
      keeps its elements when its link has no parent. */
  lemma {:induction false} GiphyFoldNumbered(nodes: seq<PageNode>, s: GiphyPass, ps: seq<nat>)
    requires DistinctIds(nodes) && |s.attached| == |nodes|
    requires CardPositions(nodes, ps) && Increasing(ps)
    requires s.inserted == []
    ensures var r := GiphyFold(nodes, s, ps);
      var cs := Consumers(nodes, s.processed, s.attached, ps);
      forall i :: 0 <= i < |cs| ==>
        r.attached[cs[i]] == GiphyEffect(GiphyDecide(nodes[cs[i]], s.processed, s.attached[cs[i]]), s.counter + i, s.attached[cs[i]])
    decreases |ps|
  {
    if ps != [] {
      var ps' := ps[..|ps| - 1];
      GiphyFoldNumbered(nodes, s, ps');
      GiphyFoldCounted(nodes, s, ps');
      GiphySameDecision(nodes, s, ps);
      ConsumersSnoc(nodes, s.processed, s.attached, ps);
      var q := ps[|ps| - 1];
      var r0 := GiphyFold(nodes, s, ps');
      var cs0 := Consumers(nodes, s.processed, s.attached, ps');
      GiphyNumberedStep(nodes, s, cs0, Consumers(nodes, s.processed, s.attached, ps), r0, GiphyFold(nodes, s, ps), q);
    }
  }

  /** One step at card `q` extends the numbering: the cards `cs0` that took a key
      before keep their buttons, and `q` gets the next number if it takes one. */
  lemma GiphyNumberedStep(nodes: seq<PageNode>, s: GiphyPass, cs0: seq<nat>, cs: seq<nat>, r0: GiphyPass, r: GiphyPass, q: nat)
    requires |s.attached| == |nodes| && |r0.attached| == |nodes|
    requires q < |nodes| && nodes[q].AppCard?
    requires forall i :: 0 <= i < |cs0| ==> cs0[i] < q && nodes[cs0[i]].AppCard?
    requires r0.counter == s.counter + |cs0| && r0.attached[q] == s.attached[q]
    requires GiphyDecide(nodes[q], r0.processed, r0.attached[q]) == GiphyDecide(nodes[q], s.processed, s.attached[q])
    requires forall i :: 0 <= i < |cs0| ==>
      r0.attached[cs0[i]] == GiphyEffect(GiphyDecide(nodes[cs0[i]], s.processed, s.attached[cs0[i]]), s.counter + i, s.attached[cs0[i]])
    requires cs == cs0 + (if GiphyDecide(nodes[q], s.processed, s.attached[q]).Consume? then [q] else [])
    requires r == GiphyStep(nodes, r0, q)
    ensures forall i :: 0 <= i < |cs| ==>
      r.attached[cs[i]] == GiphyEffect(GiphyDecide(nodes[cs[i]], s.processed, s.attached[cs[i]]), s.counter + i, s.attached[cs[i]])
  {
    GiphyStepAttached(nodes, r0, q);
    forall i | 0 <= i < |cs|
      ensures r.attached[cs[i]] == GiphyEffect(GiphyDecide(nodes[cs[i]], s.processed, s.attached[cs[i]]), s.counter + i, s.attached[cs[i]])
    {
      if i < |cs0| {
        assert cs[i] == cs0[i];
        assert r.attached[cs0[i]] == r0.attached[cs0[i]];
      } else {
        assert cs[i] == q;
      }
    }
  }

  /** What the Giphy scan over cards `ps` does, card by card. The counter advances by
      exactly one per taken key. The `i`-th card whose key is taken gets the button with
      index `giphy-<start + i>` before its edit link, or nothing when the link has no
      parent (the number is used up all the same); every other card keeps its elements.
      An input is recorded as processed exactly when its card got a button, and no input
      is recorded twice. */
  lemma GiphyFoldEffect(nodes: seq<PageNode>, s: GiphyPass, ps: seq<nat>)
    requires DistinctIds(nodes) && |s.attached| == |nodes|
    requires CardPositions(nodes, ps) && Increasing(ps)
    requires s.inserted == []
    ensures var r := GiphyFold(nodes, s, ps);
      var cs := Consumers(nodes, s.processed, s.attached, ps);
      && r.counter == s.counter + |cs|
      && Increasing(cs)
      && NoDup(r.inserted)
      && r.processed == s.processed + Elements(r.inserted)
      && Elements(r.inserted) !! s.processed
      && (forall p :: 0 <= p < |nodes| && p !in cs ==> r.attached[p] == s.attached[p])
      && (forall i :: 0 <= i < |cs| ==>
            r.attached[cs[i]] == GiphyEffect(GiphyDecide(nodes[cs[i]], s.processed, s.attached[cs[i]]), s.counter + i, s.attached[cs[i]]))
      && (forall p :: 0 <= p < |nodes| && nodes[p].AppCard? && nodes[p].input.Some? ==>
            (nodes[p].input.value.id in r.inserted <==> r.attached[p] != s.attached[p]))
  {
    GiphyFoldUntouched(nodes, s, ps);
    GiphyFoldProcessed(nodes, s, ps);
    GiphyFoldRecorded(nodes, s, ps);
    GiphyFoldCounted(nodes, s, ps);
    GiphyFoldSkipped(nodes, s, ps);
    GiphyFoldNumbered(nodes, s, ps);
  }

  /** `parseInt(sessionStorage.getItem('rah_giphyIndex') || '0')`: the counter a Giphy
      scan starts from, given what the page's session storage holds. A missing entry
      and an empty one both fall back to `'0'`. */
  function StoredCounter(stored: Option<string>): nat
    requires stored.None? || stored.value == "" || IsDigits(stored.value)
  {
    ParseDecimal(if stored.Some? && stored.value != "" then stored.value else "0")
  }

  /** What a scan writes back is what the next scan reads: the counter resumes where the
      previous scan left it, and a missing entry reads as zero. */
  lemma StoredCounterResumes(n: nat)
    ensures StoredCounter(Some(NatToString(n))) == n
    ensures StoredCounter(None) == 0 && StoredCounter(Some("")) == 0
  {
    ParseNatToString(n);
    assert "0" == NatToString(0);
  }

  /** Slot indices handed out by one counter never repeat, and each can be read back as
      the counter value it was made from. */
  lemma GiphyIndicesDistinct(m: nat, n: nat)
    ensures m != n ==> GiphyIndex(m) != GiphyIndex(n)
    ensures ParseDecimal(GiphyIndex(n)[|GiphyIndexPrefix|..]) == n
  {
    if m != n {
      PrefixedNumbersDistinct(GiphyIndexPrefix, m, n);
    }
    assert GiphyIndex(n)[|GiphyIndexPrefix|..] == NatToString(n);
    ParseNatToString(n);
  }
}
