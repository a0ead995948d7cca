# dom-utils, modelled in Dafny

dom-utils is a small browser library of DOM helpers. This project models its core:

- **`lib/Css.js`**
  - reading and writing CSS properties and element sizes;
  - the anchor geometry of `anchoredPosition`;
  - parsing CSS transition strings.
- **`lib/ScrollHelper.js`**: reading and writing the horizontal scroll position so that it is the same whichever of the three RTL scrolling conventions the browser follows.
- **`lib/DomEventsSink.js`**: a registry of event listeners that can be removed together by element, name, namespace, handler or capture flag.
- **`lib/DomCompat.js`**: fallbacks for DOM methods that are missing from older engines:
  - `getRootNode`, `closest` and `remove`;
  - `before`, `after`, `prepend` and `append`;
  - the scoped selectors and `toggleClass`.
- **`lib/Dom.js`**:
  - building an element with attributes and children;
  - `closestUntil`;
  - `prev`/`next` sibling searches;
  - `unwrapChildren`.
- **`lib/Touches.js`**: a tap recogniser over touch events.

## How the model is organised

The browser is represented by explicit state:

- **The document tree.** It is a `DomTree.Tree` object with four parts:
  - node kinds;
  - parent links;
  - ordered child lists;
  - a ghost map from each node to its ancestors, itself included.

  Four host operations change the tree: create a node, insert a detached node, detach a node, and replace a node's data (attributes, properties, class list and style, through `SetData`). Each keeps `Valid()`, which covers four things:
  - the links and lists agree;
  - no list holds a node twice;
  - there are no cycles;
  - no document has a parent.
- **Objects the library mutates.** These are classes:
  - the inline style (`CssBox.InlineStyle`);
  - the listener registry (`DomEventsSink.Sink`);
  - the scroll-type cache (`ScrollHelper.ScrollEnv`);
  - the scoped-selector feature flag (`DomCompat.ScopedSelectorSupport`);
  - the state of one tap recogniser (`Touches.TouchTap`).
- **Pure computations.** These are functions, with lemmas about them. Examples are the box arithmetic, the anchor geometry, the transition parsing and the scroll-position conversions.
- **Loops in the source.** Each becomes a method with invariants, proved equal to a specification function. Examples:
  - the property loop of `getCssProps`;
  - the entry loop of `setElementAttrs`;
  - the partition loop of `remove`;
  - the touch search of the tap end handler;
  - the sibling walks;
  - the `unwrapChildren` loop.
- **Outcomes.** `Base.Result` holds success, a thrown `TypeError`, or a `DOMException` with its name.

Whatever the helpers read from the browser is given to the model as a parameter:
- computed styles;
- layout sizes;
- the result of a selector match (as the set of nodes it matches);
- the clock;
- whether a native method exists.

## Model

| member | source | states |
|---|---|---|
| CssBox.GetCssProps | lib/Css.js:6-35 | the result has exactly the requested properties as keys, and each holds `CssPropValue` of the element |
| CssBox.CssPropValue | lib/Css.js:10-31 | an `auto` width/height of an HTML element becomes a number: the offset size minus padding and borders, clamped at 0, unless it is `border-box`, when it is the offset size itself; any other property is its computed text, or missing |
| CssBox.InlineStyle.SetCssProps | lib/Css.js:41-44 | the inline style becomes `WithCssProps` of the old style: each given key is set, with `null`/`undefined` written as the empty string |
| CssBox.WithCssProps | lib/Css.js:41-44 | the keys are the old keys plus the given ones; given keys hold their new text; every other key keeps its value |
| CssBox.DocumentSize | lib/Css.js:68-79 | a document's size is at least each of the five body/documentElement scroll, offset and client sizes, and equals one of them |
| CssBox.ElementSize | lib/Css.js:46-136 | a window measures its documentElement's client size; a document measures `DocumentSize`; an element without margins is never negative |
| CssBox.Measure | lib/Css.js:85-108 | with the rect API and no pseudo-element, the rect size includes padding and borders; otherwise the computed size (client size when `auto`) includes padding when `auto` or border-box, and borders under border-box |
| CssBox.LayerDelta | lib/Css.js:110-122 | a layer that is requested but not included is added, one included but not requested is subtracted, and otherwise nothing changes |
| CssBox.Clamp | lib/Css.js:124-125 | a negative size becomes 0; a non-negative size is kept |
| CssBox.BoxSize | lib/Css.js:80-134 | the element size is the clamped adjusted measure plus the margins when they are requested, so it is never negative without margins |
| CssBox.GetElementSize | lib/Css.js:46-136 | the getter computes exactly `ElementSize` |
| CssBox.MeasureBox | lib/Css.js:85-108 | the measuring step computes exactly `Measure` |
| CssBox.GetBoxSize | lib/Css.js:80-134 | the element branch of the getter computes exactly `BoxSize` |
| CssBox.NonElementTargetsIgnoreFlags | lib/Css.js:65-79 | for a window or document, the padding, border and margin flags make no difference |
| CssBox.MarginsAfterClamp | lib/Css.js:124-131 | margins are added after the clamp, so a size with margins is the size without them plus the margins |
| CssBox.NegativeClampsToZero | lib/Css.js:124-125 | a negative adjusted size reads as 0 when no margins are asked for |
| CssBox.ZeroLayersPolicyIndependent | lib/Css.js:110-131 | with zero padding, borders and margins, every flag combination measures the same |
| CssBox.StyleSize | lib/Css.js:138-185 | the setter writes the requested size, minus margins and adjusted to the box-sizing, clamped at 0 |
| CssBox.SetElementSize | lib/Css.js:138-185 | windows and documents are ignored; an element's inline style gets `StyleSize` in pixels for the axis and nothing else changes |
| CssBox.SetterUndoesGetter | lib/Css.js:80-185 | writing back the size read with the same flags gives the element its natural style size |
| CssBox.ContentBoxRoundTrip | lib/Css.js:80-185 | under content-box sizing, writing back what was read restores the computed pixel size |
| CssBox.BorderBoxRoundTrip | lib/Css.js:80-185 | under border-box sizing, writing back what was read restores the measured size |
| CssBox.AutoClientExample | lib/Css.js:95-115 | an `auto` width of client size 50 with 5px padding on each side reads as 40 without padding |
| CssBox.RectPathExample | lib/Css.js:85-122 | a 100px rect with 8px padding and 2px borders reads as 90 when the content size is asked for |
| CssAnchor.SpecNumber | lib/Css.js:317 | a number spec is itself; a string is its `parseFloat`, or 0 when that is NaN |
| CssAnchor.Fraction | lib/Css.js:316-317 | a percentage's fraction is its leading number over 100, or 0 when no number can be read |
| CssAnchor.IsPercent | lib/Css.js:316 | a spec is a percentage when it is a non-empty string ending in `%` |
| CssAnchor.AutoSizeAsWritten | lib/Css.js:287-291 | as written, a missing size takes the outer width for both dimensions: its height equals its width, which is the corrected size's width |
| CssAnchor.AutoSize | lib/Css.js:287-292 | a missing size is measured as the outer width and outer height, padding and borders included |
| CssAnchor.ResolveStartEnd | lib/Css.js:294-299 | `start`/`end` never survive resolution, and every other spec is left as it is |
| CssAnchor.AnchorX | lib/Css.js:303-332 | the (left, right) pair of a resolved horizontal spec: the keywords, a percentage of the width mirrored under RTL, or a number n giving (n, -n) |
| CssAnchor.AnchorY | lib/Css.js:334-354 | the (top, bottom) pair of a vertical spec: the keywords, a percentage of the height, never mirrored, or a number n giving (n, -n) |
| CssAnchor.Anchor | lib/Css.js:294-364 | the result reports the resolved horizontal spec and the vertical spec unchanged |
| CssAnchor.AnchoredPositionAsWritten | lib/Css.js:286-364 | `anchoredPosition` as written: a given size is used as is, a missing one is `AutoSizeAsWritten`, and the geometry is `Anchor`'s |
| CssAnchor.AnchoredPosition | lib/Css.js:286-364 | `anchoredPosition` with the corrected measurement: a missing size is `AutoSize`, and the geometry is `Anchor`'s |
| CssAnchor.AnchorKeywords | lib/Css.js:304-315 | `left`/`top` give (0, w), `right`/`bottom` give (w, 0), `center` gives (w/2, w/2), and a number n gives (n, -n) |
| CssAnchor.StartEndResolution | lib/Css.js:294-299 | `start` acts as `right` under RTL and `left` under LTR, `end` the opposite, and the result reports the resolved keyword |
| CssAnchor.AnchorXPercent | lib/Css.js:316-328 | a horizontal percentage q% is w·q/100 from the left under LTR and is mirrored under RTL |
| CssAnchor.AnchorYPercent | lib/Css.js:346-350 | a vertical percentage q% lies h·q/100 from the top under either direction, and the bottom offset is its negation |
| CssAnchor.AnchorYOfPercent | lib/Css.js:346-350 | the vertical pair of a percentage is (h·q/100, -h·q/100) |
| CssAnchor.AnchorPercentExample | lib/Css.js:316-328 | `25%` of a 200-wide box lies at 50 under LTR and at 150 under RTL |
| CssAnchor.PercentIsNoKeyword | lib/Css.js:304-316 | a string ending in `%` is none of the keywords, so the keyword branches come first harmlessly |
| CssAnchor.AnchorOpposite | lib/Css.js:304-354 | the two values on an axis add up to the size for keywords and mirrored percentages, and to 0 for numbers and unmirrored percentages |
| CssAnchor.AutoSizeBottomIsHeight | lib/Css.js:286-292 | with the correction, a `bottom` anchor on an element of unknown size lies at its outer height |
| CssAnchor.AsWrittenBottomIsWidth | lib/Css.js:290 | as written, a `bottom` anchor on a 100x50 window lies at 100 rather than 50 |
| CssTransition.TimeStringComplete | lib/Css.js:375-377 | every string of the form `-?(0?\.)?\d+m?s` is accepted |
| CssTransition.IsTimeString | lib/Css.js:375-377 | the test `/^-?(0?\.)?\d+m?s$/`: `TimeStringComplete` and `TimeStringSound` show it accepts exactly the strings of that shape |
| CssTransition.TimeStringSound | lib/Css.js:375-377 | every accepted string splits into the sign, the `0.`/`.` group, digits and the unit the pattern describes |
| CssTransition.TimeStringAccepts | lib/Css.js:376 | `0.5s`, `.5s`, `-2ms` and `100ms` are accepted |
| CssTransition.TimeStringRejects | lib/Css.js:376 | `1.5s`, `5`, `s` and the empty string are rejected |
| CssTransition.TimeToMs | lib/Css.js:366-373 | a missing or empty value is `undefined`; an unparsable one is NaN; otherwise the number times 1 for `ms` or 1000 for seconds |
| CssTransition.TimeStringHasValue | lib/Css.js:366-377 | every accepted time string converts to a number of milliseconds |
| CssTransition.TimeToMsOfNatMs | lib/Css.js:366-373 | `<n>ms` converts to n |
| CssTransition.TimeToMsOfNatSeconds | lib/Css.js:366-373 | `<n>s` converts to 1000·n |
| CssTransition.SplitWs | lib/Css.js:380 | splitting on white-space runs gives at least one piece and no piece holds white space |
| CssTransition.SplitWsJoinSpace | lib/Css.js:380 | splitting non-empty words joined by single spaces gives the words back |
| CssTransition.ParseSingleTransition | lib/Css.js:379-400 | the name is the first word and the duration the second; the third word is the delay when it is a time, otherwise it is the timing function and the fourth word is the delay |
| CssTransition.ParseOfWords | lib/Css.js:379-400 | the same for any list of words joined by spaces |
| CssTransition.ParseFullTransition | lib/Css.js:379-400 | `name 300ms ease 1s` parses to the name, 300, `ease` and 1000 |
| CssTransition.ParseShortTransition | lib/Css.js:379-400 | `name 300ms 20ms` parses to the name, 300, no timing function and 20 |
| CssTransition.ParseFourWords | lib/Css.js:386-399 | four words with a third that is no time: the third is the timing function and the fourth the delay |
| CssTransition.ParseThreeWords | lib/Css.js:386-393 | three words with a time third: that is the delay and there is no timing function |
| CssTransition.UnitLength | lib/Css.js:403 | one unit of the pattern `([^,()]\|\([^)]*\))` is empty exactly at a comma, a `)` or an unclosed `(` |
| CssTransition.Matches | lib/Css.js:403 | the global match of `([^,()]\|\([^)]*\))+`, scanning left to right; every match is non-empty |
| CssTransition.MatchesNoParens | lib/Css.js:403 | without parentheses, the global match gives the non-empty comma-separated pieces |
| CssTransition.MatchesKeepParenthesised | lib/Css.js:403 | a comma inside parentheses does not split: `a(b,c),d` gives `a(b,c)` and `d` |
| CssTransition.MatchesParenthesisedHead | lib/Css.js:403 | a parenthesised group followed by a comma is one whole match, whatever commas it holds, and matching goes on after the comma |
| CssTransition.TrimAll | lib/Css.js:403 | each match is trimmed |
| CssTransition.ParseAll | lib/Css.js:403 | each piece is parsed by `ParseSingleTransition`, in order, and a piece that does not start with white space gives a non-empty name |
| CssTransition.NonEmpty | lib/Css.js:403 | exactly the non-empty pieces are kept: a piece is kept iff it is non-empty, and the count drops by the number of empty pieces |
| CssTransition.NonEmptyAppend | lib/Css.js:403 | dropping empty pieces distributes over concatenation, so the kept pieces stay in order |
| CssTransition.ParseTransition | lib/Css.js:402-404 | nothing to match throws a `TypeError`; otherwise the result is, in order, the parse of every match that is not blank once trimmed, each with a non-empty name |
| CssTransition.ParseAllTrimmed | lib/Css.js:403-404 | the transitions are, in order, the parses of the trimmed pieces that are not empty |
| CssTransition.NonEmptyTrimNonEmpty | lib/Css.js:403 | dropping empty pieces before trimming changes nothing once the blank trimmed pieces are dropped |
| CssTransition.NoPiecesOnlyCommas | lib/Css.js:403 | every comma piece is empty exactly when the string holds only commas |
| CssTransition.ParseNoParens | lib/Css.js:402-404 | without parentheses, the call throws exactly for a string of commas only, and otherwise parses, in order, every comma-separated piece that is not blank once trimmed |
| CssTransition.NothingToMatchThrows | lib/Css.js:403 | the empty string and `,,` throw |
| Numbers.ParseFloat | lib/Css.js:372 | `parseFloat` is NaN exactly when, after leading white space and a sign, no digit starts the number |
| Numbers.ParseFloatOfNat | lib/Css.js:372 | a decimal numeral followed by a non-digit parses to its value |
| Numbers.ParseFloatNegative | lib/Css.js:372 | a minus sign negates the value |
| Numbers.ParseFloatNotANumber | lib/Css.js:111-112 | `auto`, the empty string and `-.` are NaN |
| Base.Trim | lib/Css.js:403 | the trimmed string is a slice of the input with only white space outside it; it neither starts nor ends with white space, is unchanged when already trimmed, and is empty for all-space input |
| ScrollHelper.ClassifyProbe | lib/ScrollHelper.js:3-36 | a positive initial offset means `default`; otherwise `negative` when assigning 1 reads back as 0 after flooring, and `reverse` when it does not |
| ScrollHelper.LeftFromNative | lib/ScrollHelper.js:74-97 | the left offset for a native offset: the offset itself under LTR and the `default` type, native + scrollWidth − clientWidth for `negative`, scrollWidth − native − clientWidth for `reverse` |
| ScrollHelper.NativeForLeft | lib/ScrollHelper.js:44-67 | the native offset converts back to the requested left offset, and equals it for LTR and the `default` type |
| ScrollHelper.NativeLeftNative | lib/ScrollHelper.js:44-97 | converting a native offset to a left offset and back gives the native offset |
| ScrollHelper.HorzFromNative | lib/ScrollHelper.js:131-140 | the direction-relative offset is the left offset under LTR and the distance from the right edge under RTL |
| ScrollHelper.NativeForHorz | lib/ScrollHelper.js:114-124 | the native offset converts back to the requested direction-relative offset |
| ScrollHelper.NativeHorzNative | lib/ScrollHelper.js:114-140 | converting a native offset to a direction-relative offset and back gives the native offset |
| ScrollHelper.ReverseSelfInverse | lib/ScrollHelper.js:56-60 | under the `reverse` type the conversion is its own inverse |
| ScrollHelper.NegativeExample | lib/ScrollHelper.js:61-64 | under the `negative` type, native 300 on a 500/100 box is left offset 700 and back |
| ScrollHelper.ScrollEnv.constructor | lib/ScrollHelper.js:1 | at load time the scroll type is unknown and nothing has been probed |
| ScrollHelper.ResolveRtl | lib/ScrollHelper.js:45-47 | an omitted `rtl` is read from the element's computed direction |
| ScrollHelper.ModeFor | lib/ScrollHelper.js:49-66 | the convention of a call once the cache is filled: LTR, or RTL with the probed scroll type |
| ScrollHelper.ScrollEnv.ResolveMode | lib/ScrollHelper.js:44-55 | the scroll type is probed only for RTL and only once, is cached, and decides the mode |
| ScrollHelper.CalculateNativeScrollLeftForLeft | lib/ScrollHelper.js:44-67 | returns `NativeForLeft` for the element's direction, probing at most once |
| ScrollHelper.GetScrollLeft | lib/ScrollHelper.js:74-97 | returns the left offset of the element's native `scrollLeft` |
| ScrollHelper.SetScrollLeft | lib/ScrollHelper.js:104-106 | sets `scrollLeft` to the native offset for the requested left offset |
| ScrollHelper.CalculateNativeScrollLeftForHorz | lib/ScrollHelper.js:114-124 | returns `NativeForHorz` for the element's direction |
| ScrollHelper.GetScrollHorz | lib/ScrollHelper.js:131-140 | returns the direction-relative offset of `scrollLeft` |
| ScrollHelper.SetScrollHorz | lib/ScrollHelper.js:147-149 | sets `scrollLeft` to the native offset for the requested direction-relative offset |
| ScrollHelper.RoundTrips | lib/ScrollHelper.js:74-149 | reading after setting gives back the left and direction-relative offsets, and the probe runs at most once |
| DomEventsSink.UseCapture | lib/DomEventsSink.js:23 | the capture flag is true for `true` or an options object with `capture: true` |
| DomEventsSink.RegisteredOptions | lib/DomEventsSink.js:22 | the host gets the options as given, or `false` when they are falsy |
| DomEventsSink.EventName | lib/DomEventsSink.js:18-19 | the event name is the text before the first dot (`EventNameParts`) |
| DomEventsSink.EventNamespace | lib/DomEventsSink.js:18-20 | the namespace is the text between the first and second dots, or none without a dot (`EventNameParts`) |
| DomEventsSink.Truthy | lib/DomEventsSink.js:45-49 | a name or namespace criterion applies only when it is a non-empty string |
| DomEventsSink.EventNameParts | lib/DomEventsSink.js:18-20 | the name and namespace hold no dot; the namespace exists exactly when there was a dot; the name is a prefix of the event name |
| DomEventsSink.MakeFilter | lib/DomEventsSink.js:36-45 | a `null` options argument throws; only given criteria filter; the capture criterion exists exactly when options are given |
| DomEventsSink.Kept | lib/DomEventsSink.js:46-56 | the records kept are records the filter does not select |
| DomEventsSink.Removed | lib/DomEventsSink.js:46-56 | the records removed are records the filter selects |
| DomEventsSink.PartitionExact | lib/DomEventsSink.js:46-61 | kept and removed together are the old records, as a multiset and in number |
| DomEventsSink.PartitionMembership | lib/DomEventsSink.js:47-55 | every record lands on the side the filter decides |
| DomEventsSink.NoFilterRemovesAll | lib/DomEventsSink.js:57-59 | with no criterion, every record is removed |
| DomEventsSink.NamespaceOnlyFilter | lib/DomEventsSink.js:36-51 | `.ns` selects exactly the records in namespace `ns`, whatever their name |
| DomEventsSink.RemovalCalls | lib/DomEventsSink.js:63-65 | one `removeEventListener` call per removed record, with its element, name, handler and capture flag |
| DomEventsSink.Sink.Add | lib/DomEventsSink.js:17-26 | the host always gets one `addEventListener` call, with `false` for falsy options; the registry gains one record, except that `null` options throw after the host call and leave the registry as it was |
| DomEventsSink.Sink.Remove | lib/DomEventsSink.js:35-67 | the registry keeps `Kept`, the host is told to remove `Removed` in order, and `null` options throw leaving everything as it was |
| DomEventsSink.Partition | lib/DomEventsSink.js:46-56 | the loop computes exactly `Kept` and `Removed` |
| DomEventsSink.NotifyRemoved | lib/DomEventsSink.js:63-65 | the loop makes exactly the calls of `RemovalCalls` |
| DomEventsSink.ListenerLog.Record | lib/DomEventsSink.js:22 | the host receives the call, appended to its log |
| DomEventsSink.Sink.constructor | lib/DomEventsSink.js:2-8 | a new sink has no records |
| Touches.DistanceThreshold | lib/Touches.js:55 | an omitted or zero distance means 1; any other distance is itself |
| Touches.Fires | lib/Touches.js:54-58 | the tap condition: `distance: null` always fires, otherwise the movement must be shorter than the threshold |
| Touches.FiresIffWithinThreshold | lib/Touches.js:52-58 | with `distance: null` a tap always fires; otherwise it fires exactly when the movement is shorter than the threshold |
| Touches.FiresWithoutMove | lib/Touches.js:52-58 | an unmoved touch fires unless the distance is negative |
| Touches.OmittedDistanceIsOne | lib/Touches.js:55 | with no distance, a move of 2 does not fire and a move of (0.5, 0.5) does |
| Touches.DocumentedThreshold | lib/Touches.js:4 | the documented default: an omitted distance means 9, any given distance is read as in the code, and the threshold is never below the code's |
| Touches.OmittedDistanceIsNine | lib/Touches.js:4 | with the documented default, a move of 2 fires where the code's default suppresses it, and a move of 9 does not fire |
| Touches.FiresDocumentedWider | lib/Touches.js:52-58 | every tap that fires with the code's default also fires with the documented one |
| Touches.FindTouch | lib/Touches.js:33-38 | the loop finds the first changed touch with the tracked id, or reports that there is none |
| Touches.FirstWithId | lib/Touches.js:33-38 | the index of the first touch with the id, none exactly when no touch has it |
| Touches.EndPosition | lib/Touches.js:30-42 | the end point is the tracked touch, else the first changed touch, else the event's own page coordinates |
| Touches.FirstWithIdIsFirst | lib/Touches.js:33-38 | the first touch with the id is the one the search picks |
| Touches.TouchTap.constructor | lib/Touches.js:8-10 | binding listens for `touchstart` only, with no tracked touch |
| Touches.TouchTap.Start | lib/Touches.js:12-24 | delivered while `touchstart` is attached: a second touch while one is tracked is ignored; otherwise the first changed touch is tracked and the end and cancel listeners are attached |
| Touches.TouchTap.End | lib/Touches.js:26-61 | delivered while `touchend` is attached: an end with no tracked touch does nothing; otherwise tracking stops, and the handler gets the event exactly when the tap fires |
| Touches.TouchTap.Cancel | lib/Touches.js:63-69 | delivered while `touchcancel` is attached: tracking stops and the end and cancel listeners are detached |
| Touches.TouchTap.Unbind | lib/Touches.js:74-78 | every listener is detached |
| Touches.TapInPlace | lib/Touches.js:12-61 | a touch that ends where it started fires unless the distance is negative |
| DomTree.RootOf | lib/DomCompat.js:10-13 | the root is an ancestor of the node and has no parent |
| DomTree.RootIsUnique | lib/DomCompat.js:10-13 | any parentless ancestor is the root |
| DomTree.Tree.NewNode | lib/Dom.js:10 | a new node has a fresh id, no parent and no children; the tree stays valid |
| DomTree.Tree.Insert | lib/DomCompat.js:66 | the node goes to the given position of the parent's children and gains the parent's ancestors; the tree stays valid |
| DomTree.Tree.Detach | lib/DomCompat.js:48-49 | the node leaves its parent's list at its position and loses the ancestors above it; the tree stays valid |
| DomTree.Tree.SetData | lib/Dom.js:32-45 | an element's data is replaced, nothing else in the tree changes, and the tree stays valid |
| DomTree.SetDataKeepsValid | lib/Dom.js:32-45 | replacing an element's data keeps the links, lists and ancestor sets exact |
| DomTree.InsertKeepsValid | lib/DomCompat.js:66 | inserting a detached non-document node under a node not below it keeps the links, lists and ancestor sets exact |
| DomTree.DetachKeepsValid | lib/DomCompat.js:48-49 | removing a child keeps the links, lists and ancestor sets exact |
| DomCompat.GetRootNode | lib/DomCompat.js:5-14 | `null` for a missing node, otherwise the topmost ancestor |
| DomCompat.FirstMatch | lib/DomCompat.js:29-36 | the first candidate the selector matches, or none exactly when no candidate matches |
| DomCompat.ElementChain | lib/DomCompat.js:29-34 | the candidates are the node, then each parent for as long as it is an element |
| DomCompat.Closest | lib/DomCompat.js:21-37 | the first of the node and its element ancestors that matches; a node that is not an element throws |
| DomCompat.Remove | lib/DomCompat.js:42-50 | a missing or detached node leaves the tree as it was; an attached node leaves its parent's list and nothing else changes |
| DomCompat.InsertArgs | lib/DomCompat.js:62-76 | the arguments, in order, take the given position; strings become new text nodes; other lists are unchanged |
| DomCompat.Place | lib/DomCompat.js:62-76 | an argument that is an ancestor of the parent throws `HierarchyRequestError` after the arguments were converted into one node (`Converted`: with two or more, they sit in a new fragment); otherwise all arguments are placed |
| DomCompat.Convert | lib/DomCompat.js:62-73 | a single node is used as it is, a single string becomes a new detached text node, and two or more arguments become, in order, the children of a new fragment, with nothing else changed |
| DomCompat.AppendRootIntoFragment | lib/DomCompat.js:150-173 | `append(p, a, R)` with `R` the root of `p`'s tree throws `HierarchyRequestError`, and `a` and `R` are then the children of the new fragment |
| DomCompat.Before | lib/DomCompat.js:56-78 | the arguments go right before the node; no arguments change nothing; with no parent, native does nothing and the fallback throws a `TypeError` after converting the arguments; a cycle throws after the conversion |
| DomCompat.After | lib/DomCompat.js:84-111 | the arguments go right after the node, with the same error cases and the same converted state after them |
| DomCompat.Prepend | lib/DomCompat.js:117-144 | the arguments go before the first child; a text node as parent, or a cycle, throws `HierarchyRequestError` after the arguments were converted |
| DomCompat.Append | lib/DomCompat.js:150-173 | the arguments go after the last child; a text node as parent, or a cycle, throws `HierarchyRequestError` after the arguments were converted |
| DomCompat.InsertOne | lib/DomCompat.js:62-66 | a node, or a new text node for a string, goes to the given position; the other lists stay |
| DomCompat.InsertText | lib/DomCompat.js:65-66 | `createTextNode` then `insertBefore`: a fresh text node with the string goes to the given position of the parent |
| DomCompat.ScopeRewritePieces | lib/DomCompat.js:197 | the rewrite puts the prefix after the leading white space of every selector in the list |
| DomCompat.ScopeRewriteLeadingComma | lib/DomCompat.js:197 | a list that opens with a comma only has its empty first selector prefixed |
| DomCompat.ScopeRewrite | lib/DomCompat.js:197 | the replacement `/((?:^\|,)\s*)/g` to `'$1' + prefix`, with the empty match at the start (`ScopeRewritePieces`, `ScopeRewriteLeadingComma`) |
| DomCompat.MarkAfterCommas | lib/DomCompat.js:197 | the same replacement after the start: each comma and the white space after it are kept and followed by the prefix |
| DomCompat.NativeScoped | lib/DomCompat.js:197 | the selector with `:scope ` put in front of each selector of the list |
| DomCompat.FallbackSelectorAsWritten | lib/DomCompat.js:202 | as written, `#` and the temporary id put in front of each selector, with no space |
| DomCompat.FallbackSelector | lib/DomCompat.js:202 | corrected: `#`, the temporary id and a space put in front of each selector |
| Numbers.NatToString | lib/DomCompat.js:200 | `String(Date.now())`: a non-empty string of digits whose value is the number (`DigitsValueOfNatToString`) |
| DomCompat.IdOf | lib/DomCompat.js:199 | `el.id` reads the `id` attribute, or the empty string without one |
| DomCompat.UniqueId | lib/DomCompat.js:200 | the temporary id starts with `ID_` |
| DomCompat.WithId | lib/DomCompat.js:201 | setting `el.id` changes only the `id` attribute |
| DomCompat.RestoredId | lib/DomCompat.js:199-207 | setting the id back to what was read restores it, whatever was set in between |
| DomCompat.FallbackSelectorGlued | lib/DomCompat.js:202 | as written, `div` becomes `#ID_1div`; with the space it becomes `#ID_1 div` |
| DomCompat.FallbackLikeNative | lib/DomCompat.js:191-209 | the corrected fallback prefixes each selector exactly where `:scope ` goes |
| DomCompat.ScopedSelectorSupport.Detect | lib/DomCompat.js:177-184 | the cached flag becomes whether `:scope` queries are accepted |
| DomCompat.ScopedSelectorSupport.constructor | lib/DomCompat.js:175 | at load time the feature is untested |
| DomCompat.ScopedSelectorSupport.ScopedAsWritten | lib/DomCompat.js:191-234 | with `:scope` support, the query gets the `:scope ` rewrite; without it, the call throws a `TypeError` and the element keeps the temporary id |
| DomCompat.ScopedSelectorSupport.Scoped | lib/DomCompat.js:191-234 | with the corrections, the fallback queries the id-scoped selector and the element's id ends as it was |
| DomCompat.TokenError | lib/DomCompat.js:243-261 | an empty class token is a `SyntaxError`, one with white space an `InvalidCharacterError`, and any other token is valid |
| DomCompat.AddToken | lib/DomCompat.js:251-256 | a present token leaves the list as it is, an absent one is appended at the end, and a list without duplicates stays without them |
| DomCompat.Toggle | lib/DomCompat.js:242-264 | an invalid token throws; otherwise the token is present afterwards exactly when the result is true, the other tokens are unchanged, and the result is `force` or whether the token was absent |
| DomCompat.ToggleTwice | lib/DomCompat.js:245-253 | toggling an absent token twice gives back the same list |
| DomCompat.ToggleClass | lib/DomCompat.js:242-264 | a node that is not an element throws; the element's class list becomes `Toggle`'s and nothing else changes |
| Dom.ApplyAttr | lib/Dom.js:34-43 | one entry changes only its own key, leaves the class list alone, and touches the style only for `css` |
| Dom.ApplyAttrs | lib/Dom.js:32-45 | keys no entry names are untouched; the style changes only through `css`; the class list never changes |
| Dom.ApplyAttrsEntry | lib/Dom.js:32-45 | each entry leaves its value: skipped for null, text for `innerHTML` and attributes, the value itself for the three properties, merged style for `css` |
| Dom.SetElementAttrs | lib/Dom.js:32-45 | the element's data becomes `ApplyAttrs` of its old data and nothing else in the tree changes |
| Dom.CreateElement | lib/Dom.js:9-26 | a new element with the attributes applied and the children appended in order; exactly those children gain it as parent |
| Dom.NewElement | lib/Dom.js:10-13 | a new element with the tag and the attributes applied, in no tree and with no children |
| Dom.AppendToNew | lib/Dom.js:15-23 | the nodes become the new element's children in order and exactly they gain it as parent |
| Dom.CutAfter | lib/Dom.js:65-66 | the candidates stop at `until`, inclusive, or run on when it is not among them |
| Dom.CutAfterNarrows | lib/Dom.js:53-72 | stopping at `until` can lose a match but never changes one |
| Dom.ClosestUntil | lib/Dom.js:53-72 | like `closest`, but `until` is the last node tested |
| Dom.BackwardIsReversedForward | lib/Dom.js:79-116 | walking back through the siblings meets the elements in the reverse order of walking forward |
| Dom.ElementsForward | lib/Dom.js:112 | the element nodes of a list, first to last |
| Dom.ElementsBackward | lib/Dom.js:90 | the element nodes of a list, last to first |
| Dom.SiblingsBefore | lib/Dom.js:90 | the nodes before `el` in its parent's list; none without a parent |
| Dom.SiblingsAfter | lib/Dom.js:112 | the nodes after `el` in its parent's list; none without a parent |
| Dom.SiblingsAround | lib/Dom.js:86-113 | the siblings before, the node and the siblings after make up the parent's list; a parentless node has none |
| Dom.ForwardMembers | lib/Dom.js:108-113 | the forward walk meets exactly the sibling elements |
| Dom.BackwardMembers | lib/Dom.js:86-91 | the backward walk meets exactly the sibling elements |
| Dom.Prev | lib/Dom.js:79-94 | the first of the node and its earlier element siblings, nearest first, that matches; missing gives `null`; a non-element throws |
| Dom.Next | lib/Dom.js:101-116 | the first of the node and its later element siblings, nearest first, that matches |
| Dom.ScanBackward | lib/Dom.js:86-91 | the loop finds the first match among the earlier element siblings |
| Dom.ScanForward | lib/Dom.js:108-113 | the loop finds the first match among the later element siblings |
| Dom.MoveFirstChildBefore | lib/Dom.js:121 | the first child moves into the parent right before the element |
| Dom.MoveChildrenBefore | lib/Dom.js:120-121 | every child moves, in order, into the parent right before the element |
| Dom.UnwrapChildren | lib/Dom.js:118-123 | the children take the element's place in order and the element leaves with no children; a parentless element throws |

## Left out

- `css` entry with a primitive value: `setCssProps` iterates the entries of a string as characters; the model keeps the style unchanged for non-object values.
- The link between the `class` attribute and `classList`, and between the `style` attribute and the inline style: the model keeps them apart.
- `innerHTML` and `textContent` replacing an element's children: the model stores them as properties.
- Moving nodes that are already attached, passing the same node twice, and inserting documents or fragments: callers pass detached, distinct nodes that are elements or text.
- Document-level insertion constraints (one document element, doctype placement).
- Shadow roots: `getRootNode` is modelled as the topmost ancestor.
- `getElementOffset` (lib/Css.js:260-272): it only reads client rectangles and the window's scroll offsets.
- The DOM work of the RTL probe (lib/ScrollHelper.js:4-16, 33): only its two readings are inputs.
- CssBox.ElementSize: NaN readings and the `parseFloat` exponent and `Infinity` forms are not modelled. Sizes are reals.
- Numbers.ParseFloat: no exponent and no `Infinity`.
- Touches.FiresIffWithinThreshold: `Math.hypot` is compared through squares. The same movements fire.
- The `DocumentFragment` that carries two or more arguments is elided when the insertion succeeds: inserting it moves its children, in order, to one position, and that is what is modelled; the empty fragment left behind, which no caller can reach, is not created.
- Query results are parameters: a selector is represented by the set of nodes it matches. The query made while the temporary id is set is a function of the rewritten selector.
- Invalid tag names and attribute names, which make the browser throw.
- Array items in `createElement` that are not nodes.
- CssBox.StyleSize: the setter's `parseFloat(x) || 0` and the getter's `parseFloat(x || 0)` differ only for NaN readings, which are not modelled.
- ScrollHelper.ResolveRtl: a truthy non-boolean `rtl` argument is modelled as a boolean.
- ScrollHelper.SetScrollLeft: the host is taken to store `scrollLeft` exactly, with no clamping or rounding.
- Touches.TouchTap.constructor: `options` is taken to be an object. The parameter documentation (lib/Touches.js:3) marks it optional, and without it binding and `touchstart` still work; the first `touchend` then clears the tracked touch (lib/Touches.js:51-52) and throws a `TypeError` reading `options.distance` (lib/Touches.js:54). That path is not modelled.
- The tap detector keeps the code's default threshold of 1, since that is what the code does; the documented default of 9 is modelled beside it (`Touches.DocumentedThreshold`) and compared with it.
- A `css` entry on an element without a `style` property: the source then falls through to `setAttribute('css', …)` (lib/Dom.js:39, 43), while the model always merges it into the style, since every element of the model has one.
- `setAttribute` lowercases the attribute name on HTML elements (lib/Dom.js:43): the model stores the key as given.
- `tabIndex` and `readOnly` reflect to the `tabindex` and `readonly` attributes: the model stores them as properties only.
- An invalid inline-style value is ignored by the browser, which keeps the old value; `CssBox.WithCssProps` stores whatever string it is given.

## Findings

| source | as written | input that shows it | evidently intended | confidence | as-written member | corrected member |
|---|---|---|---|---|---|---|
| lib/Css.js:290 | a missing size measures the height with `getElementWidth` | no `size` on a 100x50 element, `ySpec` `bottom`: top is 100 | the outer height, from `getElementHeight` | high (not executed) | CssAnchor.AsWrittenBottomIsWidth | CssAnchor.AutoSizeBottomIsHeight |
| lib/DomCompat.js:206, 231 | `finally` restores the id with `this.id = id`; `this` is not the element | any scoped query on an engine without `:scope`: a `TypeError` is thrown and the element keeps `ID_<now>` | `el.id = id` | high (not executed) | DomCompat.ScopedSelectorSupport.ScopedAsWritten | DomCompat.ScopedSelectorSupport.Scoped |
| lib/DomCompat.js:202, 227 | the id selector is glued to the selector after it | `div` becomes `#ID_1div` | `#ID_1 div`, a descendant selector like the `:scope ` form | high (not executed) | DomCompat.FallbackSelectorGlued | DomCompat.FallbackLikeNative |
| lib/Touches.js:4, 55 | `options.distance \|\| 1`: an omitted distance means 1 | no `distance`, a touch that moves 2 pixels: no tap | the documented default of 9 | medium (not executed) | Touches.OmittedDistanceIsOne | Touches.OmittedDistanceIsNine |
