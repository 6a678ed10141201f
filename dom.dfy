/** The part of a web page the annotators see and change.

    The page's own elements that matter are `nodes`, in document order: `h3` headings and
    Giphy app cards. The scripts never change them. Next to each node the scripts place
    their own elements (reveal buttons and QR containers); `attached[p]` lists the ones
    next to `nodes[p]`, in document order. A button for a heading is inserted directly
    after the heading, so it goes to the front of the list and a heading's next sibling
    element is `attached[p][0]`. A button for a Giphy card is inserted directly before
    the card's edit link, so it goes to the end of the list and the link's previous
    sibling element is the last entry. */
module Dom {

  datatype Option<+T> = None | Some(value: T)

  /** Identity of a DOM node the scripts remember (a heading or a text input). */
  type NodeId = nat

  /** A string-valued field as JavaScript sees it: missing, `null`, or a string. */
  datatype JsString = Undefined | Null | Str(s: string)

  /** JavaScript truthiness of such a field: only a non-empty string is truthy. */
  predicate Truthy(v: JsString) {
    v.Str? && v.s != ""
  }

  /** The text a template literal `${v}` produces for the field. */
  function Display(v: JsString): string {
    match v
    case Undefined => "undefined"
    case Null => "null"
    case Str(s) => s
  }

  /** `input[type="text"][value]` inside a card: its identity and its value. */
  datatype TextInput = TextInput(id: NodeId, value: string)

  /** `a[href*="/apps/"][href*="/edit/"]` inside a card. */
  datatype EditLink = EditLink(hasParent: bool)

  datatype PageNode =
      /** An `h3`; `primary` when it is the second `h3` of a `div.app-details` inside
          an `li.developed-app` (the client-ID heading of a Reddit app). */
    | Heading(id: NodeId, text: string, primary: bool, hasParent: bool)
      /** A `div.dp-app-card` with its first text input and first edit link, if any. */
    | AppCard(input: Option<TextInput>, editLink: Option<EditLink>)

  function NodeIdOf(n: PageNode): Option<NodeId> {
    match n
    case Heading(id, _, _, _) => Some(id)
    case AppCard(input, _) => if input.Some? then Some(input.value.id) else None
  }

  /** No two nodes share an identity. */
  predicate DistinctIds(nodes: seq<PageNode>) {
    forall i, j :: 0 <= i < j < |nodes| && NodeIdOf(nodes[i]).Some? ==> NodeIdOf(nodes[i]) != NodeIdOf(nodes[j])
  }

  /** What a QR container shows: the generated image, or the error marker whose
      hover title carries the error. */
  datatype ContainerBody = QrImage(src: string) | ErrorMarker(hoverTitle: string)

  datatype Elem =
      /** A reveal button. `classed`: it carries the class `rah-show-qr-button`;
          `loading`: its label is "Loading..." and it is disabled. */
    | ShowButton(clientId: string, index: string, title: string, classed: bool, loading: bool)
      /** A `span` holding the QR image or the error marker, with the button's data. */
    | QrContainer(clientId: string, index: string, originalTitle: Option<string>, body: ContainerBody)

  const ShowLabel: string := "[Show QR]"
  const LoadingLabel: string := "Loading..."
  const ErrorLabel: string := "[QR ERR]"

  /** The visible text of one of the scripts' elements. */
  function Label(e: Elem): string {
    match e
    case ShowButton(_, _, _, _, loading) => if loading then LoadingLabel else ShowLabel
    case QrContainer(_, _, _, body) => if body.ErrorMarker? then ErrorLabel else ""
  }

  /** An element with the class `rah-show-qr-button`. */
  predicate IsClassedButton(e: Elem) {
    e.ShowButton? && e.classed
  }

  /** A heading's next element sibling is one of the classed buttons. */
  predicate NextIsClassedButton(after: seq<Elem>) {
    |after| > 0 && IsClassedButton(after[0])
  }

  /** An edit link's previous element sibling is one of the classed buttons. */
  predicate PrevIsClassedButton(before: seq<Elem>) {
    |before| > 0 && IsClassedButton(before[|before| - 1])
  }

  /** `heading.parentNode.insertBefore(e, heading.nextSibling)`. */
  function InsertAfterNode(attached: seq<seq<Elem>>, p: nat, e: Elem): (r: seq<seq<Elem>>)
    requires p < |attached|
    ensures |r| == |attached| && r[p] == [e] + attached[p]
    ensures forall q :: 0 <= q < |r| && q != p ==> r[q] == attached[q]
  {
    attached[p := [e] + attached[p]]
  }

  /** `link.parentNode.insertBefore(e, link)`. */
  function InsertBeforeLink(attached: seq<seq<Elem>>, p: nat, e: Elem): (r: seq<seq<Elem>>)
    requires p < |attached|
    ensures |r| == |attached| && r[p] == attached[p] + [e]
    ensures forall q :: 0 <= q < |r| && q != p ==> r[q] == attached[q]
  {
    attached[p := attached[p] + [e]]
  }

  /** Position of one of the scripts' elements: the node it sits next to, and its place
      among that node's elements. */
  datatype ElemRef = ElemRef(host: nat, slot: nat)

  predicate ValidRef(attached: seq<seq<Elem>>, r: ElemRef) {
    r.host < |attached| && r.slot < |attached[r.host]|
  }

  function At(attached: seq<seq<Elem>>, r: ElemRef): Elem
    requires ValidRef(attached, r)
  {
    attached[r.host][r.slot]
  }

  /** `a` comes before `b` in document order. */
  predicate Precedes(a: ElemRef, b: ElemRef) {
    a.host < b.host || (a.host == b.host && a.slot < b.slot)
  }

  /** Matches the selector `button[data-index="<index>"]`. */
  predicate IsButtonWith(e: Elem, index: string) {
    e.ShowButton? && e.index == index
  }

  /** The two pages have the same elements in the same places (only their contents
      may differ): a swap never adds or removes an element. */
  predicate SameShape(a: seq<seq<Elem>>, b: seq<seq<Elem>>) {
    |a| == |b| && forall h :: 0 <= h < |a| ==> |a[h]| == |b[h]|
  }

  function FindInNode(es: seq<Elem>, index: string, k: nat): (r: Option<nat>)
    requires k <= |es|
    ensures r.Some? ==> k <= r.value < |es| && IsButtonWith(es[r.value], index)
    ensures r.Some? ==> forall j :: k <= j < r.value ==> !IsButtonWith(es[j], index)
    ensures r.None? ==> forall j :: k <= j < |es| ==> !IsButtonWith(es[j], index)
    decreases |es| - k
  {
    if k == |es| then None
    else if IsButtonWith(es[k], index) then Some(k)
    else FindInNode(es, index, k + 1)
  }

  function FindFrom(attached: seq<seq<Elem>>, index: string, h: nat): (r: Option<ElemRef>)
    requires h <= |attached|
    ensures r.Some? ==> h <= r.value.host && ValidRef(attached, r.value) && IsButtonWith(At(attached, r.value), index)
    ensures r.Some? ==> forall q :: ValidRef(attached, q) && h <= q.host && Precedes(q, r.value) ==> !IsButtonWith(At(attached, q), index)
    ensures r.None? ==> forall q :: ValidRef(attached, q) && h <= q.host ==> !IsButtonWith(At(attached, q), index)
    decreases |attached| - h
  {
    if h == |attached| then None
    else match FindInNode(attached[h], index, 0)
      case Some(k) => Some(ElemRef(h, k))
      case None => FindFrom(attached, index, h + 1)
  }

  /** `document.querySelector(`button[data-index="${index}"]`)`: the first button in
      document order whose index is `index`, if there is one. */
  function FirstButtonWith(attached: seq<seq<Elem>>, index: string): (r: Option<ElemRef>)
    ensures r.Some? ==> ValidRef(attached, r.value) && IsButtonWith(At(attached, r.value), index)
    ensures r.Some? ==> forall q :: ValidRef(attached, q) && Precedes(q, r.value) ==> !IsButtonWith(At(attached, q), index)
    ensures r.None? <==> forall q :: ValidRef(attached, q) ==> !IsButtonWith(At(attached, q), index)
  {
    FindFrom(attached, index, 0)
  }

  /** A button that is the only one with its index is the one the lookup finds. */
  lemma OnlyButtonIsFirst(attached: seq<seq<Elem>>, index: string, r: ElemRef)
    requires ValidRef(attached, r) && IsButtonWith(At(attached, r), index)
    requires forall q :: ValidRef(attached, q) && IsButtonWith(At(attached, q), index) ==> q == r
    ensures FirstButtonWith(attached, index) == Some(r)
  {
  }

  /** `parent.replaceChild(e, old)` for the element at `r`. */
  function ReplaceAt(attached: seq<seq<Elem>>, r: ElemRef, e: Elem): (a: seq<seq<Elem>>)
    requires ValidRef(attached, r)
    ensures SameShape(attached, a) && At(a, r) == e
    ensures forall q :: ValidRef(attached, q) && q != r ==> At(a, q) == At(attached, q)
  {
    attached[r.host := attached[r.host][r.slot := e]]
  }

  /** Two pages with the same elements in the same places are the same page. */
  lemma SameElemsEqual(a: seq<seq<Elem>>, b: seq<seq<Elem>>)
    requires SameShape(a, b)
    requires forall q :: ValidRef(a, q) ==> At(a, q) == At(b, q)
    ensures a == b
  {
    forall h | 0 <= h < |a|
      ensures a[h] == b[h]
    {
      forall k | 0 <= k < |a[h]|
        ensures a[h][k] == b[h][k]
      {
        assert At(a, ElemRef(h, k)) == At(b, ElemRef(h, k));
      }
    }
  }

  /** `button.textContent = 'Loading...'; button.disabled = true`. */
  function MarkLoading(attached: seq<seq<Elem>>, r: ElemRef): (a: seq<seq<Elem>>)
    requires ValidRef(attached, r) && At(attached, r).ShowButton?
    ensures SameShape(attached, a) && At(a, r) == At(attached, r).(loading := true)
    ensures forall q :: ValidRef(attached, q) && q != r ==> At(a, q) == At(attached, q)
  {
    ReplaceAt(attached, r, At(attached, r).(loading := true))
  }

  /** Marking a button as loading keeps it the first button with its index: the later
      lookup by index finds the very button that was clicked when it was found before. */
  lemma MarkLoadingKeepsLookup(attached: seq<seq<Elem>>, r: ElemRef)
    requires ValidRef(attached, r) && At(attached, r).ShowButton?
    requires FirstButtonWith(attached, At(attached, r).index) == Some(r)
    ensures FirstButtonWith(MarkLoading(attached, r), At(attached, r).index) == Some(r)
  {
    var a := MarkLoading(attached, r);
    var index := At(attached, r).index;
    assert IsButtonWith(At(a, r), index);
  }

  /** `s.startsWith(prefix)`. */
  predicate StartsWith(s: string, prefix: string) {
    |prefix| <= |s| && s[..|prefix|] == prefix
  }

  /** `s.includes(sub)`. */
  predicate Includes(s: string, sub: string)
    decreases |s|
  {
    StartsWith(s, sub) || (s != [] && Includes(s[1..], sub))
  }

  /** The node lists the scripts ask for with `querySelectorAll`. */
  datatype Selector =
    | PrimaryHeadingSel   // 'li.developed-app div.app-details > h3:nth-of-type(2)'
    | AnyHeadingSel       // 'h3'
    | AppCardSel          // 'div.dp-app-card'

  predicate Matches(n: PageNode, sel: Selector) {
    match sel
    case PrimaryHeadingSel => n.Heading? && n.primary
    case AnyHeadingSel => n.Heading?
    case AppCardSel => n.AppCard?
  }

  /** Positions in `nodes[from..]` matched by `sel`, in document order. */
  function SelectFrom(nodes: seq<PageNode>, sel: Selector, from: nat): (ps: seq<nat>)
    requires from <= |nodes|
    ensures forall i :: 0 <= i < |ps| ==> from <= ps[i] < |nodes| && Matches(nodes[ps[i]], sel)
    ensures forall i, j :: 0 <= i < j < |ps| ==> ps[i] < ps[j]
    ensures forall p :: from <= p < |nodes| && Matches(nodes[p], sel) ==> p in ps
    decreases |nodes| - from
  {
    if from == |nodes| then []
    else if Matches(nodes[from], sel) then [from] + SelectFrom(nodes, sel, from + 1)
    else SelectFrom(nodes, sel, from + 1)
  }

  /** `document.querySelectorAll(sel)`: every matching node exactly once, in document
      order. */
  function QuerySelectorAll(nodes: seq<PageNode>, sel: Selector): (ps: seq<nat>)
    ensures forall i :: 0 <= i < |ps| ==> ps[i] < |nodes| && Matches(nodes[ps[i]], sel)
    ensures forall i, j :: 0 <= i < j < |ps| ==> ps[i] < ps[j]
    ensures forall p :: 0 <= p < |nodes| && Matches(nodes[p], sel) ==> p in ps
  {
    SelectFrom(nodes, sel, 0)
  }

  /** Membership in the result of `querySelectorAll` is exactly matching the selector. */
  lemma SelectedMatch(nodes: seq<PageNode>, sel: Selector)
    ensures forall p :: p in QuerySelectorAll(nodes, sel) <==> 0 <= p < |nodes| && Matches(nodes[p], sel)
  {
    var ps := QuerySelectorAll(nodes, sel);
    forall p | p in ps
      ensures 0 <= p < |nodes| && Matches(nodes[p], sel)
    {
      var k :| 0 <= k < |ps| && ps[k] == p;
    }
  }

  /** The document of the tab the script runs in. */
  class Document {
    var url: string
    var hasBody: bool
    var nodes: seq<PageNode>
    var attached: seq<seq<Elem>>

    ghost predicate Valid()
      reads this
    {
      |attached| == |nodes| && DistinctIds(nodes)
    }

    /** A freshly loaded page: the page's own nodes and none of the scripts' elements. */
    constructor (url: string, hasBody: bool, nodes: seq<PageNode>)
      requires DistinctIds(nodes)
      ensures Valid()
      ensures this.url == url && this.hasBody == hasBody && this.nodes == nodes
      ensures forall p :: 0 <= p < |attached| ==> attached[p] == []
    {
      this.url := url;
      this.hasBody := hasBody;
      this.nodes := nodes;
      this.attached := seq(|nodes|, _ => []);
    }
  }
}
