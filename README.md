# Reddit App Helper: the page annotator, modelled in Dafny

The extension puts a `[Show QR]` button next to every API key it finds on two
developer dashboards: the Reddit app-preferences page (`/prefs/apps`) and the Giphy
developer dashboard. A click turns the button into a QR code of the key. A click on
the QR image turns it back into a button. This project models the two content scripts
that do the annotating:

- **chrome/content.js**, the current script. Its module state is `processedElements`,
  the observer handle, the `isInitializing` and `isProcessingMutation` flags, and the
  session-storage counter `rah_giphyIndex`. This is the class
  `ChromeAnnotator.Annotator`.
  - `initializeAndProcess` resets that state. It then scans a Reddit page, or starts
    a mutation observer on a Giphy page.
  - The Reddit scan (`processPage`) has two passes. The primary pass covers the
    client-ID headings. The fallback pass covers every `h3` and runs only when the
    primary pass added nothing.
  - The Giphy scan (`processGiphyDashboard`) looks at every app card. It numbers the
    keys it takes with the session counter.
  - The observer callback schedules a Giphy scan when a batch of mutations adds an
    app card. It uses `isProcessingMutation` as a single-flight flag.
  - The click handlers draw the QR code in the page, then swap button and container.
- **content.js**, the older script (module `LegacyAnnotator`). It keeps no state.
  - Once the page has loaded, it scans the client-ID headings and numbers each button
    by the heading's position.
  - A click sends a `generateQrCode` request.
  - The `qrCodeGenerated` reply swaps the button for a container. The reply can arrive
    as a runtime message, or as a window message from the same window.

The page is a `Dom.Document`. It has two parts:

- `nodes` are the page's own headings and app cards, in document order. The scripts
  never change them.
- `attached` holds, for each node, the elements the scripts put next to it.
  - Reddit buttons go right after the heading, so the newest is first.
  - Giphy buttons go right before the card's edit link, so the newest is last.
  - `querySelector('button[data-index="…"]')` is `Dom.FirstButtonWith`: the first
    button in document order.

The shared pieces live in their own modules:

- `Keys`: the `trim` and the three key patterns.
- `Decimal`: the numbers written into `data-index` and session storage.
- `Observer`: the relevance test the observer callback applies to a batch of mutations.

Each scan method follows the source's `forEach` with a loop. Its postcondition equates
the new page and state with a left fold (`ChromeScan.RedditFold`,
`ChromeScan.GiphyFold`, `LegacyAnnotator.Scan`). The lemmas next to each fold say what
it means for every node:

- which nodes get a button, and which button;
- that nothing else changes;
- that no node is recorded twice;
- that a re-scan leaves annotated nodes alone;
- that Giphy buttons are numbered consecutively from the stored counter.

The slot functions (`ChromeSlots`, `LegacyAnnotator.Update` and `Hide`) give the page
after each swap. The round-trip lemmas show that reveal followed by hide restores the
page exactly.

## Model

| member | source | states |
|---|---|---|
| Keys.Trim | chrome/content.js:82 | the trimmed text is no longer than the input and has no whitespace at either end |
| Keys.TrimCutsOnlyWhitespace | chrome/content.js:82 | the input is its trim with whitespace before and after it, so `trim` removes nothing else |
| Keys.TrimOfBlank | chrome/content.js:82-83 | a heading made only of whitespace trims to the empty string, which the `clientId &&` test rejects |
| Keys.TrimIdempotent | chrome/content.js:82 | trimming twice is the same as trimming once |
| Keys.TrimOfUnpadded | chrome/content.js:82 | text without whitespace at its ends is left as it is |
| Keys.TrimOfPadded | chrome/content.js:141 | a key with whitespace around it trims back to exactly the key |
| Keys.IsRedditClientId | chrome/content.js:83 | the primary test: a non-empty trimmed heading of more than 10 characters, all from `[a-zA-Z0-9_-]` |
| Keys.IsRedditFallbackKey | chrome/content.js:101 | the fallback test: a non-empty trimmed heading of at least 20 characters, all from `[a-zA-Z0-9_-]` |
| Keys.IsGiphyKey | chrome/content.js:142 | the Giphy test: a trimmed input value of exactly 32 characters, all from `[a-zA-Z0-9]` |
| Keys.FallbackKeyIsClientId | chrome/content.js:101 | every text the fallback test (at least 20 characters of `[a-zA-Z0-9_-]`) accepts also passes the primary test (more than 10 characters) |
| Keys.GiphyKeyCharacterisation | chrome/content.js:142 | a Giphy key is accepted exactly when it has 32 characters, all ASCII letters or digits; a `_` or `-` makes it fail |
| Keys.GiphyKeyIgnoresPadding | chrome/content.js:141-142 | whitespace around a valid key in the input value never makes it fail, because the trim comes first |
| Decimal.NatToString | content.js:29 | a number written as a `data-index` is a non-empty run of digits that starts with `0` only for zero; it has one digit exactly when the number is below ten |
| Decimal.ParseDecimal | chrome/content.js:127 | `parseInt` on a run of decimal digits: the number they denote, most significant digit first |
| Decimal.ParseNatToString | chrome/content.js:127-147 | `parseInt` of the `toString` of a counter gives the counter back |
| Decimal.NatToStringInjective | content.js:29 | different positions give different `data-index` strings |
| Decimal.PrefixedNumbersDistinct | chrome/content.js:148 | two different counters behind the same prefix give different slot indices |
| Dom.InsertAfterNode | chrome/content.js:86 | `insertBefore(button, heading.nextSibling)` makes the button the heading's next sibling, ahead of what was there, and touches no other node |
| Dom.InsertBeforeLink | chrome/content.js:153 | `insertBefore(button, editLink)` makes the button the link's previous sibling and touches no other node |
| Dom.FirstButtonWith | chrome/content.js:331 | the lookup finds a button with that `data-index`, and no earlier element in document order is one; it finds nothing exactly when no such button exists |
| Dom.OnlyButtonIsFirst | chrome/content.js:331 | when a single button carries an index, the lookup by that index finds that button |
| Dom.ReplaceAt | chrome/content.js:370 | `replaceChild` puts the new element in the old one's place and leaves every other element where and what it was |
| Dom.MarkLoading | chrome/content.js:265-266 | the clicked button becomes a disabled "Loading..." button with its data unchanged, and nothing else changes |
| Dom.MarkLoadingKeepsLookup | chrome/content.js:265-266 | the button stays the one the lookup by its index finds while it is loading |
| Dom.QuerySelectorAll | chrome/content.js:75 | the selection is exactly the matching nodes, in document order, without repetition |
| Dom.SelectedMatch | chrome/content.js:94 | a position is selected exactly when its node matches the selector |
| Dom.Document.constructor | chrome/content.js:403-404 | the page the script is injected into carries none of the scripts' elements yet |
| Observer.FindRelevantChange | chrome/content.js:197-214 | the nested loop with its early exits answers true exactly when some child-list mutation of the batch adds an element that is an app card or contains one |
| Observer.RelevanceOfConcatenation | chrome/content.js:199-214 | two batches merged into one are relevant exactly when one of them is |
| Observer.OnlyAddedElementsCount | chrome/content.js:200-203 | attribute and text changes, and added non-element nodes, never make a batch relevant |
| ChromeScan.NewButton | chrome/content.js:240-255 | `createShowQrButton` gives an enabled `[Show QR]` button carrying the class `rah-show-qr-button` and the given client ID, index and title |
| ChromeScan.Selections | chrome/content.js:75-118 | the three selectors pick headings, headings and app cards, each in document order |
| ChromeScan.Decide | chrome/content.js:77-106 | per heading: it is skipped when recorded or when a button already follows it; it gets a button (`reddit-<key>` in the primary pass, `reddit-alt-<key>` in the fallback) exactly when the trimmed text passes the pass's test and the heading has a parent; the fallback throws exactly on a new valid heading without a parent |
| ChromeScan.RedditStep | chrome/content.js:77-106 | one heading of a pass: a thrown pass stays as it is; otherwise the heading's decision is carried out, and an insertion records the heading |
| ChromeScan.RedditFold | chrome/content.js:76-91 | one pass of the heading `forEach`; it keeps one element list per node |
| ChromeScan.RedditScan | chrome/content.js:72-109 | `processPage` on a Reddit page: the primary pass, then the fallback pass when the primary added nothing |
| ChromeScan.RedditFoldSnoc | chrome/content.js:76-91 | the pass over one more heading is one more step on the pass so far |
| ChromeScan.RedditFoldAfterThrow | chrome/content.js:103 | once a step has thrown, the rest of the `forEach` does nothing |
| ChromeScan.RedditFoldUntouched | chrome/content.js:76-91 | nodes the selector did not pick keep their elements |
| ChromeScan.RedditStepRecords | chrome/content.js:85-88 | a step either changes nothing, or records a new heading, adds it to `processedElements` and puts exactly one element before that heading's old siblings, leaving every other node alone |
| ChromeScan.RedditFoldProcessed | chrome/content.js:79-87 | a pass records each heading at most once, never one recorded before, and `processedElements` grows by exactly the headings recorded |
| ChromeScan.RedditFoldRecorded | chrome/content.js:85-88 | a heading's elements changed exactly when the pass recorded that heading |
| ChromeScan.RedditSameDecision | chrome/content.js:78-81 | earlier steps of a pass do not change what a later heading is decided |
| ChromeScan.RedditFoldDecided | chrome/content.js:76-91 | every selected heading ends unchanged or with its own decision carried out; without a throw, every one has its decision carried out |
| ChromeScan.RedditFoldEffect | chrome/content.js:76-107 | the effect of a whole pass: no double records, the processed set grows by the recorded headings, unselected nodes are untouched, and each selected heading gets what its decision says (all of them when nothing threw) |
| ChromeScan.RedditScanEffect | chrome/content.js:72-109 | `processPage` as a whole: only headings change, and each recorded heading gains a button; when some client-ID heading qualifies, exactly the primary pass runs and other headings stay as they were; otherwise the fallback runs, and unless it throws every heading gets exactly the button its fallback decision gives it |
| ChromeScan.PrimaryIdle | chrome/content.js:93 | when the primary pass adds nothing, it changes nothing, and no client-ID heading qualified, so the fallback runs on an unchanged page |
| ChromeScan.PrimaryIdleKeeps | chrome/content.js:93 | a primary pass that records nothing leaves page and processed set as they were |
| ChromeScan.IdleFoldKeeps | chrome/content.js:76-91 | any pass that records nothing leaves every node's elements as they were |
| ChromeScan.PrimaryBusy | chrome/content.js:88-93 | when the primary pass adds a button, some client-ID heading qualified, every client-ID heading got what its decision says, and every other node is untouched, so the fallback is not run |
| ChromeScan.PrimaryNeverThrows | chrome/content.js:85 | the primary pass checks `parentNode` before inserting, so it never throws |
| ChromeScan.InsertedPosition | chrome/content.js:84-88 | every heading the primary pass records is a selected heading whose decision was to insert |
| ChromeScan.GiphyDecide | chrome/content.js:130-144 | a card's key is taken exactly when the card has a text input and an edit link, the input is not recorded, no classed button precedes the link and the trimmed value is a Giphy key; a button is then inserted only when the link has a parent |
| ChromeScan.GiphyStep | chrome/content.js:130-160 | one card: a taken key advances the counter, and when the link has a parent the numbered button goes before it and the input is recorded |
| ChromeScan.GiphyFold | chrome/content.js:129-161 | one run of the card `forEach`; it keeps one element list per node |
| ChromeScan.GiphyFoldSnoc | chrome/content.js:129-161 | the run over one more card is one more step on the run so far |
| ChromeScan.Consumers | chrome/content.js:141-146 | the cards whose key a run takes are exactly the selected cards whose decision is to take it |
| ChromeScan.GiphyStepRecords | chrome/content.js:150-155 | a step that inserts records the card's input, which was not recorded before, and changes that card's elements; any other step changes no elements and no records |
| ChromeScan.GiphyFoldUntouched | chrome/content.js:129-161 | nodes that are not selected cards keep their elements |
| ChromeScan.GiphyFoldProcessed | chrome/content.js:133-154 | a run records each input at most once, never one recorded before, and the processed set grows by exactly those inputs |
| ChromeScan.GiphyFoldRecorded | chrome/content.js:150-155 | a card's elements changed exactly when the run recorded its input |
| ChromeScan.GiphySameDecision | chrome/content.js:134-135 | earlier steps neither touch a later card nor change its decision |
| ChromeScan.GiphyStepCounter | chrome/content.js:146 | the counter goes up by one exactly when the card's key is taken, whether or not a button can be inserted |
| ChromeScan.GiphyStepAttached | chrome/content.js:146-158 | a step puts the decided button, numbered with the current counter, before the card's link and leaves every other node alone |
| ChromeScan.GiphyFoldCounted | chrome/content.js:146 | a run advances the counter by the number of keys it takes, and those cards come in document order |
| ChromeScan.GiphyFoldSkipped | chrome/content.js:135-137 | selected cards whose key is not taken keep their elements |
| ChromeScan.GiphyFoldNumbered | chrome/content.js:146-148 | the i-th card whose key is taken gets the button its decision says, numbered `giphy-<start + i>` |
| ChromeScan.GiphyFoldEffect | chrome/content.js:129-161 | the effect of a whole Giphy scan: counter, numbering, untouched nodes, no double records, and the processed set grows by exactly the inputs that got a button |
| ChromeScan.StoredCounter | chrome/content.js:127 | the counter a scan starts from: the stored decimal number, or zero when the entry is missing or empty |
| ChromeScan.StoredCounterResumes | chrome/content.js:127-147 | the counter a scan writes back is the one the next scan reads, and a missing or empty entry reads as zero |
| ChromeScan.GiphyIndicesDistinct | chrome/content.js:146-148 | slot indices made from different counter values differ, and each reads back as its counter |
| ChromeSlots.ErrorString | chrome/content.js:296 | the error text built from a caught exception, with `Unknown Error` and `No message` standing in for a missing name or message |
| ChromeSlots.ImageArg | chrome/content.js:290-292 | the handler passes image data exactly when the QR code was drawn |
| ChromeSlots.ErrorArg | chrome/content.js:294-297 | the handler passes an error string exactly when drawing threw |
| ChromeSlots.ContainerFor | chrome/content.js:339-366 | the container keeps the button's client ID, the index and the button's title; it shows the image exactly when the image data is a non-empty string, and otherwise shows `[QR ERR]` with `Error: <error>` as its hover title |
| ChromeSlots.UpdateQr | chrome/content.js:329-374 | without a button for the index the page is unchanged; otherwise the first such button becomes the container and nothing else changes |
| ChromeSlots.ShowQr | chrome/content.js:258-299 | a click never adds or removes an element |
| ChromeSlots.HideQr | chrome/content.js:302-326 | the container becomes an enabled classed `[Show QR]` button with the container's client ID and index and the title restored from `data-original-title`, and nothing else changes |
| ChromeSlots.ShowReplacesClicked | chrome/content.js:258-299 | when the clicked button is the first with its index, it becomes its own container, showing the drawn image, or the error text the handler builds from the exception, and nothing else changes |
| ChromeSlots.ShowWithShadowedIndex | chrome/content.js:331 | when an earlier button carries the same index, the clicked button stays stuck at "Loading..." and an earlier button is swapped instead |
| ChromeSlots.ShowThenHide | chrome/content.js:258-326 | clicking a button and then its image gives back exactly the page before the click, so the round trip can repeat indefinitely |
| ChromeAnnotator.StoredAfter | chrome/content.js:146-147 | the storage entry after a scan stays as it was when no key was taken, and otherwise holds the final counter in decimal |
| ChromeAnnotator.ResumedScansNumberDisjointly | chrome/content.js:127-148 | a second Giphy scan, starting from what the first left in storage, hands out no slot index the first one used |
| ChromeAnnotator.StoredAfterCompose | chrome/content.js:146-147 | writes from consecutive steps compose into those of one longer run |
| ChromeAnnotator.Annotator.constructor | chrome/content.js:5-8 | a fresh script has recorded nothing and its flags are clear |
| ChromeAnnotator.Annotator.ProcessPage | chrome/content.js:69-113 | off the Reddit page nothing changes and the result is false; on it, page, processed set and result (or the TypeError) are those of `RedditScan` |
| ChromeAnnotator.Annotator.PrimaryPass | chrome/content.js:74-91 | the loop over client-ID headings equals the primary fold; it returns whether it recorded a heading, and it never throws |
| ChromeAnnotator.Annotator.VisitClientIdHeading | chrome/content.js:77-90 | one primary iteration equals one primary step |
| ChromeAnnotator.Annotator.FallbackPass | chrome/content.js:93-107 | the loop over all headings equals the fallback fold and reports whether it threw |
| ChromeAnnotator.Annotator.VisitAnyHeading | chrome/content.js:95-106 | one fallback iteration equals one fallback step, including its throw |
| ChromeAnnotator.Annotator.ProcessGiphyDashboard | chrome/content.js:116-165 | page and processed set are those of the Giphy fold from the stored counter; the result says whether an input was recorded; storage holds the final counter when it moved |
| ChromeAnnotator.Annotator.VisitCard | chrome/content.js:130-160 | one card iteration equals one Giphy step, writing storage when the counter moves |
| ChromeAnnotator.Annotator.ObserveGiphyContent | chrome/content.js:168-237 | an existing observer is kept; otherwise one is created exactly when the document has a body |
| ChromeAnnotator.Annotator.Initialize | chrome/content.js:18-66 | while initialising a re-entry does nothing; otherwise records, counter and flags are reset, then a Reddit page is scanned from an empty processed set with no observer left, and any other page is not scanned |
| ChromeAnnotator.Annotator.OnMutations | chrome/content.js:183-230 | while a scan is pending the batch is ignored; off the dashboard the observer disconnects; on it, exactly one scan is scheduled, and the flag set, when the batch adds an app card |
| ChromeAnnotator.Annotator.RunScheduledScan | chrome/content.js:221-226 | the timer runs one Giphy scan of the page as it is now, leaves storage holding the counter where the scan stopped, and clears the flag |
| ChromeAnnotator.Annotator.UpdateQrCodeContainer | chrome/content.js:329-374 | the page after the update is `UpdateQr` of the page before |
| ChromeAnnotator.Annotator.ShowQrClick | chrome/content.js:258-299 | the page after a click on an enabled button is `ShowQr` of the page before |
| ChromeAnnotator.Annotator.HideQrClick | chrome/content.js:302-326 | the page after a click on a QR image is `HideQr` of the page before |
| LegacyAnnotator.LegacyButton | content.js:22-33 | the button is an enabled, unclassed `[Show QR]` button titled `Show QR code for <client ID>`, with the given client ID and index |
| LegacyAnnotator.Placed | content.js:13-45 | the heading at position i gets at most one button; it gets one exactly when its trimmed text is a client ID and it has a parent, and that button carries the trimmed text and the index `i` in decimal |
| LegacyAnnotator.ScanStep | content.js:14-41 | one heading of the older scan: the button `Placed` gives it goes right after the heading |
| LegacyAnnotator.Scan | content.js:13-45 | the first n iterations of the `forEach` keep one element list per node |
| LegacyAnnotator.ScanSnoc | content.js:13-45 | one more iteration is one more step on the scan so far |
| LegacyAnnotator.ScanStepEffect | content.js:18-41 | one iteration puts the placed button right after its heading and touches no other node |
| LegacyAnnotator.ScanEffect | content.js:13-45 | after n iterations, the first n selected headings carry what `Placed` gives them, and every other node is as before |
| LegacyAnnotator.ProcessPageEffect | content.js:5-46 | `processPage`: only client-ID headings change, and the i-th one gains exactly the button `Placed` gives it |
| LegacyAnnotator.IndicesIncreasing | content.js:13-29 | buttons from a later heading carry a different, numerically larger index |
| LegacyAnnotator.FreshScanElement | content.js:13-41 | on a fresh page, every element after the scan is the button placed for some selected heading, right after it |
| LegacyAnnotator.FreshScanLookup | content.js:29-96 | on a fresh page, the lookup by the index of the i-th heading's button finds exactly that button |
| LegacyAnnotator.FreshLookup | content.js:96 | on any page that holds only freshly placed buttons, the lookup by a placed button's index finds that button |
| LegacyAnnotator.LegacyContainer | content.js:104-129 | the container keeps the button's client ID and the index but no title; it shows the image exactly when the image data is a non-empty string, and otherwise shows `[QR ERR]` with `Error: <error>` as its hover title |
| LegacyAnnotator.Update | content.js:94-137 | without a button for the index the page is unchanged; otherwise the first such button becomes the container and nothing else changes |
| LegacyAnnotator.Hide | content.js:69-90 | the container becomes a fresh enabled button with its client ID, its index and the standard title, and nothing else changes |
| LegacyAnnotator.RevealThenHide | content.js:49-137 | a click, an image reply for the same index and a click on the image give back exactly the page before the click |
| LegacyAnnotator.ProcessPage | content.js:5-46 | the page after `processPage` is the scan over every client-ID heading |
| LegacyAnnotator.ForEachHeading | content.js:13-45 | the loop over the selected headings equals the scan over them |
| LegacyAnnotator.VisitHeading | content.js:14-41 | one iteration equals one scan step |
| LegacyAnnotator.ShowQrClick | content.js:49-66 | the clicked button becomes "Loading...", and the request sent is `generateQrCode` with its client ID and index |
| LegacyAnnotator.UpdateQrCodeContainer | content.js:94-137 | the page after the update is `Update` of the page before |
| LegacyAnnotator.HideQrClick | content.js:69-90 | the page after a click on a QR image is `Hide` of the page before |
| LegacyAnnotator.OnRuntimeMessage | content.js:140-147 | a runtime message updates the page exactly when its action is `qrCodeGenerated`; any other message changes nothing |
| LegacyAnnotator.OnWindowMessage | content.js:150-161 | a window message updates the page exactly when it comes from this window, has data and its action is `qrCodeGenerated`; any other message changes nothing |

## Left out

- background.js and background-wrapper.js are not part of this model. That covers the
  QR library, the offscreen canvas, the fallback to another tab and the replies to
  `generateQrCode`. `LegacyAnnotator.RevealThenHide` therefore assumes that the reply
  carries the index of the request.
- QR rendering in chrome/content.js (canvas, `QrCreator.render`, `toDataURL`) is a
  parameter of `ShowQrClick`: a data URL, or an exception with a name and a message.
- Styles, sizes, margins, cursors, image titles and console logging are not modelled.
  Only labels, titles, data attributes, classes and the disabled state are modelled.
- The 50 ms `setTimeout` of the observer callback becomes a `pendingScans` count plus
  a `RunScheduledScan` event that the environment fires. Timers are not cancelled by a
  re-initialisation, as in the code.
- The `createQrInContent` branch of the runtime listener (chrome/content.js:381-393)
  calls `createQrCodeInContent`, which is not part of this model. The listener itself
  changes nothing on the page.
- Several injected copies of the script sharing one page, and the page's own changes
  to its DOM, are not modelled. The nodes are fixed for the lifetime of a `Document`.
- Selectors are built by string interpolation, so the browser reads CSS escapes in the
  index. An index with a quote can make the selector invalid. An index with a backslash
  can select a different button: `\30` selects the button whose index is `0`. The model
  compares the index as plain text, so in those cases it leaves the page unchanged.
- Error containers get no click listener in either script. The model follows that:
  `HideQrClick` applies only to a container that shows an image, so an error marker
  stays until the page is reloaded.
- The `button.parentNode` check in `updateQrCodeContainer` and the `closest()` check
  in the current `handleHideQrClick` are not modelled. Every element the scripts
  inserted has a parent in the model, so those branches cannot be reached.
- Keys.Trim: its own contract states only that the result is shorter and unpadded. The
  full characterisation of `trim` is split across TrimCutsOnlyWhitespace, TrimOfBlank
  and TrimOfPadded.
- LegacyAnnotator.OnWindowMessage: event data that is falsy is `None`. Data that is not
  an object is a `Message` whose fields are `undefined`.
- LegacyAnnotator.RevealThenHide: it assumes the button is the one the lookup finds.
  FreshScanLookup shows that this holds for every button a fresh scan places. The
  composition of the two is not one lemma.
- The older script has no processed set, so each further run of its `processPage`
  would add another button per heading. It runs once per page load, and the model
  gives no guarantee for re-runs.
- A Reddit client ID needs more than 10 characters. Error containers do not revert
  to a button. The fallback pass inserts without checking for a parent, and throws out
  of the scan when a heading has none. The model keeps all three as the code has them.
