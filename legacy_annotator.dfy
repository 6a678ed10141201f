/** The older content script (content.js). When the page has loaded it scans the client-ID
    headings once and puts a `[Show QR]` button after each one that holds a client ID; a
    click sends a request for the QR code, and the reply, which comes back as a runtime
    message or a window message, swaps the button for a container; clicking the image
    swaps the container back for a fresh button. The script keeps no state of its own:
    every handler reads and changes the page. */
module LegacyAnnotator {
  import opened Dom
  import opened Keys
  import opened Decimal
  import opened ChromeScan

  /** The action of the request a click sends. */
  const GenerateAction: string := "generateQrCode"
  /** The action of the reply that carries a QR code or an error. */
  const GeneratedAction: string := "qrCodeGenerated"

  /** The hover title of a button for `clientId`. */
  function LegacyTitle(clientId: string): string {
    "Show QR code for " + clientId
  }

  /** A button as this script makes it: no class, enabled, titled after its client ID. */
  predicate IsLegacyButton(e: Elem) {
    e.ShowButton? && !e.classed && !e.loading && e.title == LegacyTitle(e.clientId)
  }

  function LegacyButton(clientId: string, index: string): (b: Elem)
    ensures IsLegacyButton(b) && Label(b) == ShowLabel
    ensures b.clientId == clientId && b.index == index
  {
    ShowButton(clientId, index, LegacyTitle(clientId), false, false)
  }

  /** `{action: "generateQrCode", text, index}`, the request a click sends. */
  datatype Request = Request(action: string, text: string, index: string)

  /** A message carrying `action`, `index`, `imageData` and `error` fields. */
  datatype Message = Message(action: JsString, index: JsString, imageData: JsString, error: JsString)

  /** The elements the callback of `forEach` leaves after the heading `n`, which is at
      position `i` of the matched list: one new button when its trimmed text is a client
      ID and it has a parent, nothing otherwise. */
  function Placed(n: PageNode, i: nat): (es: seq<Elem>)
    requires n.Heading?
    ensures |es| <= 1
    ensures es != [] <==> IsRedditClientId(Trim(n.text)) && n.hasParent
    ensures es != [] ==> IsLegacyButton(es[0]) && es[0].clientId == Trim(n.text) && es[0].index == NatToString(i)
  {
    var clientId := Trim(n.text);
    if IsRedditClientId(clientId) && n.hasParent then [LegacyButton(clientId, NatToString(i))] else []
  }

  /** One callback of the `forEach`, for the heading at `p`, which is at position `i` of
      the matched list. */
  function ScanStep(nodes: seq<PageNode>, attached: seq<seq<Elem>>, i: nat, p: nat): seq<seq<Elem>>
    requires p < |nodes| == |attached| && nodes[p].Heading?
  {
    var clientId := Trim(nodes[p].text);
    if IsRedditClientId(clientId) && nodes[p].hasParent
    then InsertAfterNode(attached, p, LegacyButton(clientId, NatToString(i)))
    else attached
  }

  /** The page after the callbacks for the first `n` headings of the list `hs`. */
  function Scan(nodes: seq<PageNode>, attached: seq<seq<Elem>>, hs: seq<nat>, n: nat): (a: seq<seq<Elem>>)
    requires |attached| == |nodes| && HeadingPositions(nodes, hs) && n <= |hs|
    ensures |a| == |nodes|
    decreases n
  {
    if n == 0 then attached else ScanStep(nodes, Scan(nodes, attached, hs, n - 1), n - 1, hs[n - 1])
  }

  /** The scan of one more heading is one more callback. */
  lemma ScanSnoc(nodes: seq<PageNode>, attached: seq<seq<Elem>>, hs: seq<nat>, n: nat)
    requires |attached| == |nodes| && HeadingPositions(nodes, hs) && n < |hs|
    ensures Scan(nodes, attached, hs, n + 1) == ScanStep(nodes, Scan(nodes, attached, hs, n), n, hs[n])
  {
  }

  /** One callback changes only the elements after its own heading, where it adds what
      `Placed` says. */
  lemma ScanStepEffect(nodes: seq<PageNode>, a0: seq<seq<Elem>>, a: seq<seq<Elem>>, i: nat, p: nat)
    requires p < |nodes| == |a0| && nodes[p].Heading?
    requires a == ScanStep(nodes, a0, i, p)
    ensures |a| == |a0| && a[p] == Placed(nodes[p], i) + a0[p]
    ensures forall q :: 0 <= q < |a| && q != p ==> a[q] == a0[q]
  {
  }

  /** After the first `n` callbacks, the heading at position `i < n` of the list has what
      `Placed` says in front of what it had, and every other node is as it was. */
  lemma {:induction false} ScanEffect(nodes: seq<PageNode>, attached: seq<seq<Elem>>, hs: seq<nat>, n: nat)
    requires |attached| == |nodes| && HeadingPositions(nodes, hs) && Increasing(hs) && n <= |hs|
    ensures forall p :: 0 <= p < |nodes| && p !in hs ==> Scan(nodes, attached, hs, n)[p] == attached[p]
    ensures forall i :: 0 <= i < n ==> Scan(nodes, attached, hs, n)[hs[i]] == Placed(nodes[hs[i]], i) + attached[hs[i]]
    ensures forall i :: n <= i < |hs| ==> Scan(nodes, attached, hs, n)[hs[i]] == attached[hs[i]]
    decreases n
  {
    if n > 0 {
      ScanEffect(nodes, attached, hs, n - 1);
      ScanSnoc(nodes, attached, hs, n - 1);
      ScanStepEffect(nodes, Scan(nodes, attached, hs, n - 1), Scan(nodes, attached, hs, n), n - 1, hs[n - 1]);
      ScanEffectStep(nodes, attached, hs, n - 1, Scan(nodes, attached, hs, n - 1), Scan(nodes, attached, hs, n));
    }
  }

  /** The induction step of `ScanEffect`, on the pages before and after one callback. */
  lemma ScanEffectStep(nodes: seq<PageNode>, attached: seq<seq<Elem>>, hs: seq<nat>, n: nat, a0: seq<seq<Elem>>, a: seq<seq<Elem>>)
    requires |attached| == |nodes| == |a0| == |a| && HeadingPositions(nodes, hs) && Increasing(hs) && n < |hs|
    requires forall p :: 0 <= p < |nodes| && p !in hs ==> a0[p] == attached[p]
    requires forall i :: 0 <= i < n ==> a0[hs[i]] == Placed(nodes[hs[i]], i) + attached[hs[i]]
    requires forall i :: n <= i < |hs| ==> a0[hs[i]] == attached[hs[i]]
    requires a[hs[n]] == Placed(nodes[hs[n]], n) + a0[hs[n]]
    requires forall q :: 0 <= q < |a| && q != hs[n] ==> a[q] == a0[q]
    ensures forall p :: 0 <= p < |nodes| && p !in hs ==> a[p] == attached[p]
    ensures forall i :: 0 <= i < n + 1 ==> a[hs[i]] == Placed(nodes[hs[i]], i) + attached[hs[i]]
    ensures forall i :: n + 1 <= i < |hs| ==> a[hs[i]] == attached[hs[i]]
  {
  }

  /** What `processPage` does to a page: every client-ID heading gets one button right
      after it exactly when its trimmed text is a client ID and it has a parent, and the
      button's index is the heading's position among all client-ID headings, valid or
      not. Nothing else on the page changes. */
  lemma ProcessPageEffect(nodes: seq<PageNode>, attached: seq<seq<Elem>>)
    requires |attached| == |nodes|
    ensures var hs := QuerySelectorAll(nodes, PrimaryHeadingSel);
      var a := Scan(nodes, attached, hs, |hs|);
      && (forall p :: 0 <= p < |nodes| && !(nodes[p].Heading? && nodes[p].primary) ==> a[p] == attached[p])
      && (forall i :: 0 <= i < |hs| ==>
            nodes[hs[i]].Heading? && nodes[hs[i]].primary && a[hs[i]] == Placed(nodes[hs[i]], i) + attached[hs[i]])
  {
    var hs := QuerySelectorAll(nodes, PrimaryHeadingSel);
    Selections(nodes);
    SelectedMatch(nodes, PrimaryHeadingSel);
    ScanEffect(nodes, attached, hs, |hs|);
  }

  /** Buttons made in one scan have distinct indices that grow in document order: the
      later heading's index reads back as the larger number. */
  lemma IndicesIncreasing(nodes: seq<PageNode>, i: nat, j: nat)
    requires var hs := QuerySelectorAll(nodes, PrimaryHeadingSel);
      i < j < |hs| && Placed(nodes[hs[i]], i) != [] && Placed(nodes[hs[j]], j) != []
    ensures var hs := QuerySelectorAll(nodes, PrimaryHeadingSel);
      var bi := Placed(nodes[hs[i]], i)[0];
      var bj := Placed(nodes[hs[j]], j)[0];
      && hs[i] < hs[j]
      && bi.index != bj.index
      && IsDigits(bi.index) && IsDigits(bj.index) && ParseDecimal(bi.index) < ParseDecimal(bj.index)
  {
    ParseNatToString(i);
    ParseNatToString(j);
  }

  /** On a page the scripts had not touched, every element after a scan of the headings
      `hs` is the one button made for one of them. */
  lemma FreshScanElement(nodes: seq<PageNode>, attached: seq<seq<Elem>>, hs: seq<nat>, a: seq<seq<Elem>>, q: ElemRef)
    returns (k: nat)
    requires |attached| == |nodes| == |a| && forall p :: 0 <= p < |attached| ==> attached[p] == []
    requires HeadingPositions(nodes, hs)
    requires forall p :: 0 <= p < |nodes| && p !in hs ==> a[p] == attached[p]
    requires forall i :: 0 <= i < |hs| ==> a[hs[i]] == Placed(nodes[hs[i]], i) + attached[hs[i]]
    requires ValidRef(a, q)
    ensures k < |hs| && q == ElemRef(hs[k], 0) && Placed(nodes[hs[k]], k) != []
    ensures At(a, q) == Placed(nodes[hs[k]], k)[0]
  {
    assert q.host in hs;
    k :| 0 <= k < |hs| && hs[k] == q.host;
    assert a[hs[k]] == Placed(nodes[hs[k]], k);
  }

  /** On a page the scripts had not touched, the lookup by index after a scan of the
      headings `hs` (the client-ID headings, say, which `Selections` shows to be headings
      in document order) finds, for each button the scan made, that very button; so
      each of these buttons meets what `RevealThenHide` asks of the clicked button. */
  lemma FreshScanLookup(nodes: seq<PageNode>, attached: seq<seq<Elem>>, hs: seq<nat>, a: seq<seq<Elem>>, i: nat)
    requires |attached| == |nodes| && forall p :: 0 <= p < |attached| ==> attached[p] == []
    requires HeadingPositions(nodes, hs) && Increasing(hs)
    requires a == Scan(nodes, attached, hs, |hs|)
    requires i < |hs| && Placed(nodes[hs[i]], i) != []
    ensures FirstButtonWith(a, NatToString(i)) == Some(ElemRef(hs[i], 0))
    ensures IsLegacyButton(At(a, ElemRef(hs[i], 0)))
  {
    ScanEffect(nodes, attached, hs, |hs|);
    FreshLookup(nodes, attached, hs, a, i);
  }

  /** `FreshScanLookup` for any page `a` that the scan's effect describes. */
  lemma FreshLookup(nodes: seq<PageNode>, attached: seq<seq<Elem>>, hs: seq<nat>, a: seq<seq<Elem>>, i: nat)
    requires |attached| == |nodes| == |a| && forall p :: 0 <= p < |attached| ==> attached[p] == []
    requires HeadingPositions(nodes, hs)
    requires forall p :: 0 <= p < |nodes| && p !in hs ==> a[p] == attached[p]
    requires forall i :: 0 <= i < |hs| ==> a[hs[i]] == Placed(nodes[hs[i]], i) + attached[hs[i]]
    requires i < |hs| && Placed(nodes[hs[i]], i) != []
    ensures FirstButtonWith(a, NatToString(i)) == Some(ElemRef(hs[i], 0))
    ensures IsLegacyButton(At(a, ElemRef(hs[i], 0)))
  {
    var r := ElemRef(hs[i], 0);
    assert a[hs[i]] == Placed(nodes[hs[i]], i);
    assert IsButtonWith(At(a, r), NatToString(i));
    forall q | ValidRef(a, q) && IsButtonWith(At(a, q), NatToString(i))
      ensures q == r
    {
      var k := FreshScanElement(nodes, attached, hs, a, q);
      NatToStringInjective(k, i);
    }
    OnlyButtonIsFirst(a, NatToString(i), r);
  }

  /** The container `updateQrCodeContainer` builds for `button` under `index`. */
  function LegacyContainer(button: Elem, index: string, imageData: JsString, error: JsString): (c: Elem)
    requires button.ShowButton?
    ensures c.QrContainer? && c.clientId == button.clientId && c.index == index && c.originalTitle.None?
    ensures c.body.QrImage? <==> Truthy(imageData)
    ensures c.body.QrImage? ==> c.body.src == imageData.s && Label(c) == ""
    ensures c.body.ErrorMarker? ==> c.body.hoverTitle == "Error: " + Display(error) && Label(c) == ErrorLabel
  {
    var body := if Truthy(imageData) then QrImage(imageData.s) else ErrorMarker("Error: " + Display(error));
    QrContainer(button.clientId, index, None, body)
  }

  /** `updateQrCodeContainer(index, imageData, error)`: the index is turned into text for
      the selector; the first button in document order with that index is replaced by
      its container, and with no such button nothing changes. */
  function Update(attached: seq<seq<Elem>>, index: JsString, imageData: JsString, error: JsString): (a: seq<seq<Elem>>)
    ensures FirstButtonWith(attached, Display(index)).None? ==> a == attached
    ensures FirstButtonWith(attached, Display(index)).Some? ==>
      var r := FirstButtonWith(attached, Display(index)).value;
      && SameShape(attached, a)
      && At(a, r) == LegacyContainer(At(attached, r), Display(index), imageData, error)
      && forall q :: ValidRef(attached, q) && q != r ==> At(a, q) == At(attached, q)
  {
    var key := Display(index);
    match FirstButtonWith(attached, key)
    case None => attached
    case Some(r) => ReplaceAt(attached, r, LegacyContainer(At(attached, r), key, imageData, error))
  }

  /** `handleHideQrClick` on the image of the container at `at`: a fresh button with the
      container's client ID and index, titled after the client ID, takes its place. */
  function Hide(attached: seq<seq<Elem>>, at: ElemRef): (a: seq<seq<Elem>>)
    requires ValidRef(attached, at) && At(attached, at).QrContainer?
    ensures SameShape(attached, a)
    ensures IsLegacyButton(At(a, at)) && Label(At(a, at)) == ShowLabel
    ensures At(a, at).clientId == At(attached, at).clientId && At(a, at).index == At(attached, at).index
    ensures forall q :: ValidRef(attached, q) && q != at ==> At(a, q) == At(attached, q)
  {
    var c := At(attached, at);
    ReplaceAt(attached, at, LegacyButton(c.clientId, c.index))
  }

  /** Click, reply, hide: a click on a fresh button that is the first with its index,
      answered with a non-empty image for the same index, shows the image in place of
      the button, and clicking the image gives back exactly the page before the click. */
  lemma RevealThenHide(attached: seq<seq<Elem>>, at: ElemRef, dataUrl: string)
    requires ValidRef(attached, at) && IsLegacyButton(At(attached, at))
    requires FirstButtonWith(attached, At(attached, at).index) == Some(at)
    requires dataUrl != ""
    ensures var b := At(attached, at);
      var shown := Update(MarkLoading(attached, at), Str(b.index), Str(dataUrl), Null);
      && ValidRef(shown, at) && At(shown, at).QrContainer? && At(shown, at).body == QrImage(dataUrl)
      && Hide(shown, at) == attached
  {
    var b := At(attached, at);
    MarkLoadingKeepsLookup(attached, at);
    var shown := Update(MarkLoading(attached, at), Str(b.index), Str(dataUrl), Null);
    var hidden := Hide(shown, at);
    assert At(hidden, at) == b;
    SameElemsEqual(hidden, attached);
  }

  /** `processPage`, run once the page has loaded. */
  method ProcessPage(doc: Document)
    requires doc.Valid()
    modifies doc`attached
    ensures doc.Valid()
    ensures var hs := QuerySelectorAll(doc.nodes, PrimaryHeadingSel);
      doc.attached == Scan(doc.nodes, old(doc.attached), hs, |hs|)
  {
    var clientIdElements := QuerySelectorAll(doc.nodes, PrimaryHeadingSel);
    Selections(doc.nodes);
    ForEachHeading(doc, clientIdElements);
  }

  /** The `forEach` of `processPage` over the matched headings `hs`. */
  method ForEachHeading(doc: Document, hs: seq<nat>)
    requires doc.Valid() && HeadingPositions(doc.nodes, hs)
    modifies doc`attached
    ensures doc.Valid()
    ensures doc.attached == Scan(doc.nodes, old(doc.attached), hs, |hs|)
  {
    var nodes := doc.nodes;
    ghost var start := doc.attached;
    var index := 0;
    while index < |hs|
      invariant 0 <= index <= |hs| && doc.Valid() && doc.nodes == nodes
      invariant doc.attached == Scan(nodes, start, hs, index)
      decreases |hs| - index
    {
      ScanSnoc(nodes, start, hs, index);
      VisitHeading(doc, hs[index], index);
      index := index + 1;
    }
  }

  /** The callback of the `forEach` for the heading at `p`, at position `index` of the
      matched list. */
  method VisitHeading(doc: Document, p: nat, index: nat)
    requires doc.Valid() && p < |doc.nodes| && doc.nodes[p].Heading?
    modifies doc`attached
    ensures doc.Valid()
    ensures doc.attached == ScanStep(doc.nodes, old(doc.attached), index, p)
  {
    var element := doc.nodes[p];
    var clientId := Trim(element.text);
    if IsRedditClientId(clientId) {
      var showQrButton := LegacyButton(clientId, NatToString(index));
      if element.hasParent {
        doc.attached := InsertAfterNode(doc.attached, p, showQrButton);
      }
    }
  }

  /** `handleShowQrClick` on the enabled button at `at`: the button shows "Loading..."
      and is disabled, and the request for its QR code carries its own client ID and
      index. */
  method ShowQrClick(doc: Document, at: ElemRef) returns (request: Request)
    requires doc.Valid() && ValidRef(doc.attached, at)
    requires At(doc.attached, at).ShowButton? && !At(doc.attached, at).loading
    modifies doc`attached
    ensures doc.Valid()
    ensures doc.attached == MarkLoading(old(doc.attached), at)
    ensures request.action == GenerateAction
    ensures request.text == old(At(doc.attached, at)).clientId && request.index == old(At(doc.attached, at)).index
  {
    var button := At(doc.attached, at);
    doc.attached := MarkLoading(doc.attached, at);
    request := Request(GenerateAction, button.clientId, button.index);
  }

  /** `updateQrCodeContainer`. */
  method UpdateQrCodeContainer(doc: Document, index: JsString, imageData: JsString, error: JsString)
    requires doc.Valid()
    modifies doc`attached
    ensures doc.Valid()
    ensures doc.attached == Update(old(doc.attached), index, imageData, error)
  {
    var button := FirstButtonWith(doc.attached, Display(index));
    if button.None? {
      return;
    }
    var qrCodeContainer := LegacyContainer(At(doc.attached, button.value), Display(index), imageData, error);
    doc.attached := ReplaceAt(doc.attached, button.value, qrCodeContainer);
  }

  /** `handleHideQrClick` on the image inside the container at `at`. */
  method HideQrClick(doc: Document, at: ElemRef)
    requires doc.Valid() && ValidRef(doc.attached, at)
    requires At(doc.attached, at).QrContainer? && At(doc.attached, at).body.QrImage?
    modifies doc`attached
    ensures doc.Valid()
    ensures doc.attached == Hide(old(doc.attached), at)
  {
    var qrCodeContainer := At(doc.attached, at);
    var showQrButton := LegacyButton(qrCodeContainer.clientId, qrCodeContainer.index);
    doc.attached := ReplaceAt(doc.attached, at, showQrButton);
  }

  /** The runtime-message listener: a `qrCodeGenerated` message runs the update with its
      index, image and error; any other message changes nothing. */
  method OnRuntimeMessage(doc: Document, request: Message)
    requires doc.Valid()
    modifies doc`attached
    ensures doc.Valid()
    ensures request.action != Str(GeneratedAction) ==> doc.attached == old(doc.attached)
    ensures request.action == Str(GeneratedAction) ==>
      doc.attached == Update(old(doc.attached), request.index, request.imageData, request.error)
  {
    if request.action == Str(GeneratedAction) {
      UpdateQrCodeContainer(doc, request.index, request.imageData, request.error);
    }
  }

  /** The window-message listener. `fromThisWindow` says whether the message's source is
      the script's own window; `data` is `None` when the message data is falsy. Only a
      `qrCodeGenerated` message from the same window runs the update. */
  method OnWindowMessage(doc: Document, fromThisWindow: bool, data: Option<Message>)
    requires doc.Valid()
    modifies doc`attached
    ensures doc.Valid()
    ensures !(fromThisWindow && data.Some? && data.value.action == Str(GeneratedAction)) ==>
      doc.attached == old(doc.attached)
    ensures fromThisWindow && data.Some? && data.value.action == Str(GeneratedAction) ==>
      doc.attached == Update(old(doc.attached), data.value.index, data.value.imageData, data.value.error)
  {
    if !fromThisWindow {
      return;
    }
    if data.Some? && data.value.action == Str(GeneratedAction) {
      UpdateQrCodeContainer(doc, data.value.index, data.value.imageData, data.value.error);
    }
  }
}
