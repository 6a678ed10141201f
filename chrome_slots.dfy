/** The reveal slots of the current annotator: a `[Show QR]` button becomes a loading
    button, the loading button is swapped for one QR container (the image, or the
    `[QR ERR]` marker), and clicking the image swaps the container back for a fresh
    button. Each function gives the page's elements after one of these swaps. */
module ChromeSlots {
  import opened Dom
  import opened ChromeScan

  /** What happens when the content script draws the QR code for a button: a data URL,
      or an exception with its `name` and `message` (a missing `QrCreator` library is
      one such exception). */
  datatype RenderOutcome = Rendered(dataUrl: string) | RenderFailed(name: JsString, message: JsString)

  /** `v || fallback` for a string-valued field. */
  function OrElse(v: JsString, fallback: string): string {
    if Truthy(v) then v.s else fallback
  }

  /** The text `handleShowQrClick` builds from a caught exception. */
  function ErrorString(name: JsString, message: JsString): string {
    "Content Script Error: " + OrElse(name, "Unknown Error") + ": " + OrElse(message, "No message")
  }

  /** The `imageData` argument the click handler passes to the update. */
  function ImageArg(render: RenderOutcome): (v: JsString)
    ensures render.Rendered? <==> v.Str?
  {
    if render.Rendered? then Str(render.dataUrl) else Null
  }

  /** The `error` argument the click handler passes to the update. */
  function ErrorArg(render: RenderOutcome): (v: JsString)
    ensures render.RenderFailed? <==> v.Str?
  {
    if render.RenderFailed? then Str(ErrorString(render.name, render.message)) else Null
  }

  /** The container `updateQrCodeContainer` builds for `button`. */
  function ContainerFor(button: Elem, index: string, imageData: JsString, error: JsString): (c: Elem)
    requires button.ShowButton?
    ensures c.QrContainer? && c.clientId == button.clientId && c.index == index
    ensures c.originalTitle == Some(button.title)
    ensures c.body.QrImage? <==> Truthy(imageData)
    ensures c.body.QrImage? ==> c.body.src == imageData.s && Label(c) == ""
    ensures c.body.ErrorMarker? ==> c.body.hoverTitle == "Error: " + Display(error) && Label(c) == ErrorLabel
  {
    var body := if Truthy(imageData) then QrImage(imageData.s) else ErrorMarker("Error: " + Display(error));
    QrContainer(button.clientId, index, Some(button.title), body)
  }

  /** `updateQrCodeContainer(index, imageData, error)`: the first button in document order
      whose index is `index` is replaced by the container built from it; with no such
      button nothing changes. */
  function UpdateQr(attached: seq<seq<Elem>>, index: string, imageData: JsString, error: JsString): (a: seq<seq<Elem>>)
    ensures FirstButtonWith(attached, index).None? ==> a == attached
    ensures FirstButtonWith(attached, index).Some? ==>
      var r := FirstButtonWith(attached, index).value;
      && SameShape(attached, a)
      && At(a, r) == ContainerFor(At(attached, r), index, imageData, error)
      && forall q :: ValidRef(attached, q) && q != r ==> At(a, q) == At(attached, q)
  {
    match FirstButtonWith(attached, index)
    case None => attached
    case Some(r) => ReplaceAt(attached, r, ContainerFor(At(attached, r), index, imageData, error))
  }

  /** `handleShowQrClick` on the button at `at`: it is marked loading, then the update
      runs for its index with exactly one of image and error present. */
  function ShowQr(attached: seq<seq<Elem>>, at: ElemRef, render: RenderOutcome): (a: seq<seq<Elem>>)
    requires ValidRef(attached, at) && At(attached, at).ShowButton?
    ensures SameShape(attached, a)
  {
    UpdateQr(MarkLoading(attached, at), At(attached, at).index, ImageArg(render), ErrorArg(render))
  }

  /** The title a container's `data-original-title` gives back to the button. */
  function RestoredTitle(originalTitle: Option<string>): string {
    if originalTitle.Some? then originalTitle.value else "undefined"
  }

  /** `handleHideQrClick` on the image of the container at `at`: the container is
      replaced by a new classed button with the container's client ID and index and the
      title it kept. */
  function HideQr(attached: seq<seq<Elem>>, at: ElemRef): (a: seq<seq<Elem>>)
    requires ValidRef(attached, at) && At(attached, at).QrContainer?
    ensures SameShape(attached, a)
    ensures IsClassedButton(At(a, at)) && !At(a, at).loading && Label(At(a, at)) == ShowLabel
    ensures At(a, at).clientId == At(attached, at).clientId && At(a, at).index == At(attached, at).index
    ensures At(a, at).title == RestoredTitle(At(attached, at).originalTitle)
    ensures forall q :: ValidRef(attached, q) && q != at ==> At(a, q) == At(attached, q)
  {
    var c := At(attached, at);
    ReplaceAt(attached, at, NewButton(c.clientId, c.index, RestoredTitle(c.originalTitle)))
  }

  /** A click on a button that is the first with its index replaces exactly that button,
      and nothing else, by a container with the button's client ID, index and title: the
      image when a non-empty data URL was drawn, otherwise the `[QR ERR]` marker whose
      hover title carries the error. */
  lemma ShowReplacesClicked(attached: seq<seq<Elem>>, at: ElemRef, render: RenderOutcome)
    requires ValidRef(attached, at) && At(attached, at).ShowButton?
    requires FirstButtonWith(attached, At(attached, at).index) == Some(at)
    ensures var b := At(attached, at);
      var c := At(ShowQr(attached, at, render), at);
      && c.QrContainer? && c.clientId == b.clientId && c.index == b.index && c.originalTitle == Some(b.title)
      && (c.body.QrImage? <==> render.Rendered? && render.dataUrl != "")
      && (c.body.QrImage? ==> c.body.src == render.dataUrl)
      && (render.RenderFailed? ==> c.body == ErrorMarker("Error: " + ErrorString(render.name, render.message)))
    ensures forall q :: ValidRef(attached, q) && q != at ==> At(ShowQr(attached, at, render), q) == At(attached, q)
  {
    MarkLoadingKeepsLookup(attached, at);
  }

  /** The lookup is by index, not by the clicked element: when an earlier button carries
      the same index, an earlier button (the first with that index) is swapped for the
      container and the clicked button stays disabled with "Loading..." on it. */
  lemma ShowWithShadowedIndex(attached: seq<seq<Elem>>, at: ElemRef, earlier: ElemRef, render: RenderOutcome)
    returns (swapped: ElemRef)
    requires ValidRef(attached, at) && At(attached, at).ShowButton?
    requires ValidRef(attached, earlier) && Precedes(earlier, at)
    requires IsButtonWith(At(attached, earlier), At(attached, at).index)
    ensures var a := ShowQr(attached, at, render);
      && At(a, at) == At(attached, at).(loading := true) && Label(At(a, at)) == LoadingLabel
      && ValidRef(attached, swapped) && Precedes(swapped, at) && At(attached, swapped).ShowButton?
      && At(a, swapped) == ContainerFor(At(attached, swapped), At(attached, at).index, ImageArg(render), ErrorArg(render))
  {
    var m := MarkLoading(attached, at);
    var index := At(attached, at).index;
    assert IsButtonWith(At(m, earlier), index);
    swapped := FirstButtonWith(m, index).value;
    assert !Precedes(earlier, swapped);
    assert Precedes(swapped, at);
  }

  /** Reveal and hide round-trip: clicking a fresh button that is the first with its
      index, getting an image, then clicking the image gives back exactly the page before
      the click, so the cycle can repeat. */
  lemma ShowThenHide(attached: seq<seq<Elem>>, at: ElemRef, dataUrl: string)
    requires ValidRef(attached, at) && IsClassedButton(At(attached, at)) && !At(attached, at).loading
    requires FirstButtonWith(attached, At(attached, at).index) == Some(at)
    requires dataUrl != ""
    ensures HideQr(ShowQr(attached, at, Rendered(dataUrl)), at) == attached
  {
    var shown := ShowQr(attached, at, Rendered(dataUrl));
    ShowReplacesClicked(attached, at, Rendered(dataUrl));
    var hidden := HideQr(shown, at);
    assert At(hidden, at) == At(attached, at);
    SameElemsEqual(hidden, attached);
  }
}
