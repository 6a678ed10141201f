/** What the Giphy dashboard observer looks at in one batch of DOM mutations: whether
    some element added to the page is an app card or holds one. */
module Observer {

  /** `MutationRecord.type`. */
  datatype MutationKind = ChildList | Attributes | CharacterData

  /** A node listed in `addedNodes`: whether it is an element, whether it matches
      `div.dp-app-card`, and whether it has such a card below it. */
  datatype AddedNode = AddedNode(isElement: bool, isCard: bool, containsCard: bool)

  datatype MutationRecord = MutationRecord(kind: MutationKind, addedNodes: seq<AddedNode>)

  /** An added node that can bring new cards: an element that is a card or contains one. */
  predicate IsCardBearing(n: AddedNode) {
    n.isElement && (n.isCard || n.containsCard)
  }

  /** Mutation `m` adds a card-bearing element. */
  predicate AddsCard(m: MutationRecord) {
    m.kind == ChildList && exists j :: 0 <= j < |m.addedNodes| && IsCardBearing(m.addedNodes[j])
  }

  /** Some mutation of the batch adds a card-bearing element. */
  predicate HasRelevantAddition(batch: seq<MutationRecord>) {
    exists i :: 0 <= i < |batch| && AddsCard(batch[i])
  }

  /** The scan the observer callback runs over a batch: records in order, and within a
      child-list record its added nodes in order, stopping at the first card-bearing
      element. Its answer is exactly whether the batch adds a card. */
  method FindRelevantChange(batch: seq<MutationRecord>) returns (found: bool)
    ensures found == HasRelevantAddition(batch)
  {
    found := false;
    var i := 0;
    while i < |batch|
      invariant 0 <= i <= |batch|
      invariant !found ==> forall k :: 0 <= k < i ==> !AddsCard(batch[k])
      invariant found ==> HasRelevantAddition(batch)
      decreases |batch| - i
    {
      var m := batch[i];
      if m.kind == ChildList && |m.addedNodes| > 0 {
        var j := 0;
        while j < |m.addedNodes|
          invariant 0 <= j <= |m.addedNodes|
          invariant !found ==> forall k :: 0 <= k < j ==> !IsCardBearing(m.addedNodes[k])
          invariant found ==> AddsCard(m)
          decreases |m.addedNodes| - j
        {
          var node := m.addedNodes[j];
          if node.isElement {
            if node.isCard || node.containsCard {
              found := true;
              break;
            }
          }
          j := j + 1;
        }
      }
      if found {
        break;
      }
      i := i + 1;
    }
  }

  /** Relevance of a batch is the relevance of its parts: the callback's answer for two
      batches delivered together is true exactly when it is true for one of them. */
  lemma {:induction false} RelevanceOfConcatenation(a: seq<MutationRecord>, b: seq<MutationRecord>)
    ensures HasRelevantAddition(a + b) <==> HasRelevantAddition(a) || HasRelevantAddition(b)
  {
    if HasRelevantAddition(a + b) {
      var i :| 0 <= i < |a + b| && AddsCard((a + b)[i]);
      if i >= |a| {
        assert b[i - |a|] == (a + b)[i];
      }
    }
    if HasRelevantAddition(a) {
      var i :| 0 <= i < |a| && AddsCard(a[i]);
      assert (a + b)[i] == a[i];
    }
    if HasRelevantAddition(b) {
      var i :| 0 <= i < |b| && AddsCard(b[i]);
      assert (a + b)[|a| + i] == b[i];
    }
  }

  /** Attribute and text changes, and added text nodes, never trigger a scan. */
  lemma OnlyAddedElementsCount(batch: seq<MutationRecord>)
    requires forall i :: 0 <= i < |batch| ==>
      batch[i].kind != ChildList || forall j :: 0 <= j < |batch[i].addedNodes| ==> !batch[i].addedNodes[j].isElement
    ensures !HasRelevantAddition(batch)
  {
  }
}
