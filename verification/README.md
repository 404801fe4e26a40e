# E-Tech Cyber Cafe page script, modelled in Dafny

A Dafny model of the interaction script of the E-Tech Cyber Cafe marketing
site (`script.js`), with proofs about it. The model covers these parts of the script:

- **Mobile navigation menu** (`MobileNav`).
  - When the panel and both icons exist, the menu button toggles the panel,
    the hamburger icon and the close icon, and keeps `aria-expanded` up to
    date; when one of them is missing, the toggle does nothing.
  - Escape toggles an open menu closed when the panel and both icons exist.
  - Clicking a link inside the open panel closes it.
  - The page elements are a class whose methods update them in place. Each
    method is tied to a pure step function.
  - It is proved that every step keeps the ARIA attribute and the icons
    consistent with the panel.
- **Scroll style of the navigation bar** (`NavScroll`).
  - The `ticking` flag throttles the `scroll` listener to one requested
    animation frame at a time.
  - When that frame runs, `updateNav` sets the bar's `scrolled` class when
    the page is scrolled more than 50 pixels.
  - Animation frames are events in the model. It is proved that the number
    of requested frames is bounded by the number of frames delivered, plus one.
- **In-page anchors** (`SmoothScroll`).
  - A placeholder `#` or `#!` does nothing.
  - A fragment that names an element scrolls smoothly to 80 pixels above it
    and pushes the fragment onto the history.
  - A fragment that is not a valid selector falls back to plain navigation.
  - The browser's default navigation is always prevented.
- **Deferred images** (`LazyImages`).
  - The intersection-observer callback moves `data-src` into `src`, removes
    the attribute and stops observing the image.
  - Its loop over a batch of entries is proved correct, including batches
    that name the same image more than once.
- **Course inquiry e-mail** (`CourseInquiry`, `InquiryText`, `Mailto`,
  `UriComponent`, `JsText`).
  - The handler collects a card's trimmed, non-empty feature labels.
  - It composes the subject and the 26-plus-features-line body and encodes
    both with `encodeURIComponent`.
  - It rewrites every `%0A` to `%0D%0A` and builds the `mailto:` link.
  - Enter and Space on a focused card do the same as a click.
- **Inverses and reference definitions**, against which the encoders are
  proved:
  - `decodeURIComponent`, with its error cases: bad hex digits, stray or
    missing continuation bytes, overlong forms, surrogates, and values
    above U+10FFFF;
  - a `mailto:` parser in the manner of RFC 6068;
  - a line splitter.
- **Main results**:
  - decoding inverts encoding for every string;
  - the `%0A` rewrite equals encoding the body with CR LF line breaks;
  - parsing the finished link gives back the address, the subject and the
    CR LF body;
  - splitting the body at line feeds gives back its lines.

DOM lookups, the browser's selector engine and the scroll position are
inputs to the model. `Lookup`, `Offsets`, `Entry` and the `Option`-valued
attributes stand for what the page reports.

Three behaviours of the script that the model keeps as written:

- If no navigation bar exists, `updateNav` returns before it clears
  `ticking`. So the first scroll event still requests one frame, and after
  it no further frame is ever requested (`NavScroll.RequestsWithoutNav`).
  The script does not avoid registering work when the bar is missing; it
  stops after one request.
- After scrolling to an anchor, the script calls `history.pushState`. This
  adds a history entry; it does not replace the current one.
- A missing `data-course` or `data-price` attribute is interpolated as the
  text `null`.

## Model

| member | source | states |
|---|---|---|
| `JsText.Trim` | script.js:221 | the result has no leading or trailing JavaScript white space or line terminator, is a contiguous slice of the input with only white space cut off either side, and is empty exactly when the input is all white space |
| `JsText.TrimIdempotent` | script.js:221 | trimming a trimmed string changes nothing |
| `JsText.Join` | script.js:260 | `join` of a non-empty list has the lines' total length plus one separator per pair of neighbours and starts with the first line; the empty list joins to "" (SplitJoin and JoinCount state its inverse and its separator count) |
| `JsText.SplitJoin` | script.js:232-260 | lines joined with a line feed split back into the same lines when no line holds a line feed |
| `JsText.JoinCount` | script.js:232-260 | joining n lines with a separator that occurs in none of them puts exactly n-1 separators in the text |
| `JsText.ToCrlf` | script.js:263-265 | converting LF to CR LF grows the text by one character per line feed and keeps the number of line feeds |
| `UriComponent.Utf8` | script.js:264-265 | a code point becomes 1 to 4 bytes: a lead byte announcing the length followed by continuation bytes, with the length fixed by the code point's range |
| `UriComponent.HexRoundTrip` | script.js:264-265 | an upper-case hex digit reads back as its value |
| `UriComponent.Encode` | script.js:264-265 | `encodeURIComponent` output holds only unreserved characters and `%`, and is never shorter than its input |
| `UriComponent.EncodeAppend` | script.js:264-265 | encoding distributes over concatenation |
| `UriComponent.DecodeEncode` | script.js:264-265 | decoding the encoding of any string gives back that string |
| `UriComponent.CrlfEscapes` | script.js:265 | the left-to-right `/%0A/g` replacement never shortens the text; CrlfEscapesSafe, CrlfEscapesUnchanged and CrlfEscapesEncode state what it preserves and computes |
| `UriComponent.CrlfEscapesSafe` | script.js:265 | the global `%0A` to `%0D%0A` replacement keeps a text URI-safe |
| `UriComponent.CrlfEscapesUnchanged` | script.js:265 | the replacement leaves a text without `%0A` unchanged |
| `UriComponent.CrlfEscapesEncode` | script.js:265 | replacing `%0A` by `%0D%0A` in an encoded text equals encoding the text with every line feed turned into CR LF |
| `Mailto.MailtoLink` | script.js:268 | the link starts with `mailto:`, the address and `?`, and the rest holds no further `?` and no `#`, so neither field can end the query or start a fragment (ParseMailtoLink states that it reads back) |
| `Mailto.NoDelimiters` | script.js:268 | an encoded field never contains `&`, `?`, `=` or `#`, so it cannot break the link's structure |
| `Mailto.MailtoLinkFields` | script.js:268 | the link is `mailto:`, the address, `?subject=`, the encoded subject, `&body=` and the encoded CR LF body, and neither field holds a delimiter |
| `Mailto.ParseMailtoLink` | script.js:268 | parsing the link gives back the address, the subject and the body with CR LF line breaks, for any address without `?` |
| `InquiryText.Bullets` | script.js:243 | one bullet line `• <feature>` per feature, in order |
| `InquiryText.Subject` | script.js:229 | the subject is "Inquiry about ", then the course name at index 14, then " Course - E-Tech Cyber Cafe": 41 fixed characters around the name |
| `InquiryText.BodyLines` | script.js:232-259 | the body has 26 lines plus one per feature: the ten lead lines (greeting, "I am interested in learning more about the <course> course." at line 2, "Course Name: <course>" at line 6, "Price: <price>" at line 7, "Course Features:" at line 9), the bullets from line 10 and the fixed closing lines after them |
| `InquiryText.Body` | script.js:232-260 | for a course, price and features without line feeds, splitting the joined body at its line feeds gives back its lines |
| `InquiryText.BodyLineCount` | script.js:232-260 | for a course, price and features without line feeds, the joined body holds 25 plus one line feed per feature |
| `CourseInquiry.ItemLabel` | script.js:218-225 | a list item contributes a label exactly when it has a span whose text is not all white space; the label is that text trimmed and is non-empty |
| `CourseInquiry.FeatureLabels` | script.js:216-226 | at most one label per list item |
| `CourseInquiry.FeatureLabelsTrimmed` | script.js:218-225 | every collected label is non-empty and has no white space at either end |
| `CourseInquiry.FeatureLabelsAppend` | script.js:216-226 | the labels of two runs of items are the labels of the first followed by those of the second |
| `CourseInquiry.CollectFeatures` | script.js:216-226 | the loop over the list items pushes exactly the feature labels, in document order |
| `CourseInquiry.ItemWithoutLabelSkipped` | script.js:218-225 | an item with no span or only white-space text, inserted anywhere among any items, leaves the collected labels unchanged |
| `CourseInquiry.BlankItemsSkipped` | script.js:218-225 | example: two trimmed labels, a blank item and an item without a span give exactly the two labels, in order |
| `CourseInquiry.Interpolate` | script.js:212-213 | a present attribute renders as its text and a missing one as `null` |
| `CourseInquiry.IsActivationKey` | script.js:318 | exactly Enter and Space activate a card |
| `CourseInquiry.InquiryLink` | script.js:212-268 | the card's link is addressed to the cafe and holds no `#`; InquiryLinkMessage states the message it opens |
| `CourseInquiry.ComposeInquiry` | script.js:212-268 | the click handler builds exactly the inquiry link of the card |
| `CourseInquiry.InquiryLinkMessage` | script.js:180-268 | the card's link opens a message to the cafe's address with subject `Inquiry about <course> Course - E-Tech Cyber Cafe` and the composed body in CR LF form |
| `CourseInquiry.OnCardKeyDown` | script.js:317-327 | Enter and Space, and no other key, prevent the default action and open the same link a click opens |
| `MobileNav.OneIconVisible` | script.js:35-46 | in a consistent page exactly one of the two icons is visible, the hamburger exactly when the menu is closed |
| `MobileNav.Toggled` | script.js:35-46 | with the panel and both icons present, the toggle flips all three and sets `aria-expanded` to "true" exactly when the panel was hidden; otherwise nothing changes; consistency is kept |
| `MobileNav.ToggleTwice` | script.js:35-46 | toggling twice restores the panel and the icons, and, in a consistent page whose `aria-expanded` holds "true" or "false", the whole state |
| `MobileNav.AfterKey` | script.js:49-57 | only Escape with the button present and the menu open changes anything, and then the result is exactly the toggle: with the panel and both icons present it closes the menu, flips both icons (hamburger shown, close icon hidden in a consistent page) and sets `aria-expanded` to "false"; with an icon missing nothing changes; consistency is kept |
| `MobileNav.AfterMenuLinkClick` | script.js:61-72 | afterwards the menu is closed; an open menu is hidden with the hamburger shown, the close icon hidden and `aria-expanded` "false"; a closed one is untouched; consistency is kept |
| `MobileNav.MobileMenu.constructor` | script.js:30-33 | the menu object holds the elements found at start-up |
| `MobileNav.MobileMenu.Toggle` | script.js:35-46 | updates the elements in place as `Toggled` prescribes |
| `MobileNav.MobileMenu.OnKeyDown` | script.js:53-57 | updates the elements in place as `AfterKey` prescribes |
| `MobileNav.MobileMenu.OnMenuLinkClick` | script.js:64-71 | updates the elements in place as `AfterMenuLinkClick` prescribes |
| `NavScroll.ScrollOffset` | script.js:115 | the offset is the first non-zero of `pageYOffset`, `scrollY` and `scrollTop`, and zero exactly when all three are zero |
| `NavScroll.AfterScroll` | script.js:124-129 | a scroll sets `ticking` and requests a frame exactly when `ticking` was clear |
| `NavScroll.AfterFrame` | script.js:112-122 | a frame with an owed callback consumes it; with the bar present it clears `ticking` and sets `scrolled` exactly when the offset exceeds 50; without the bar it leaves `ticking` set |
| `NavScroll.StepValid` | script.js:109-129 | every event keeps at most one callback owed, and with the bar present one is owed exactly while `ticking` is set |
| `NavScroll.RunValid` | script.js:109-129 | any sequence of events keeps that bookkeeping |
| `NavScroll.RequestsBounded` | script.js:109-129 | with the bar present, over any sequence of events the script requests at most one frame more than it is given, and none beyond those if `ticking` was already set |
| `NavScroll.RequestsWithoutNav` | script.js:112-113 | without a navigation bar at most one frame is ever requested and `ticking` never clears once set |
| `NavScroll.FrameSettles` | script.js:115-121 | the frame that runs the owed callback leaves nothing owed and the `scrolled` class matching the offset read in that frame |
| `NavScroll.NavScroller.constructor` | script.js:109-110 | the scroller starts with nothing owed, `ticking` clear and the class unset |
| `NavScroll.NavScroller.OnScroll` | script.js:124-129 | updates the flag and the owed frames in place as `AfterScroll` prescribes |
| `NavScroll.NavScroller.OnFrame` | script.js:112-122 | updates the class, the flag and the owed frames in place as `AfterFrame` prescribes |
| `SmoothScroll.AnchorClick` | script.js:77-104 | default navigation is always prevented; a placeholder does nothing; a found target is scrolled to at its offset minus 80 with the fragment pushed when `pushState` exists; an invalid selector navigates to the `href`; no other lookup result scrolls or navigates (a failure of `scrollTo` or `pushState` itself is not modelled) |
| `SmoothScroll.TargetClearsHeader` | script.js:86-92 | taking `offsetTop` as the target's distance from the page top, after the jump the target sits exactly 80 pixels below the top of the viewport, or at its own offset when it is nearer the page start than that |
| `LazyImages.Revealed` | script.js:138-145 | an image with a non-empty `data-src` takes it as `src`, loses the attribute and is no longer observed; any other image is untouched; the result has no deferred source left |
| `LazyImages.RevealOnce` | script.js:140-144 | revealing an image a second time changes nothing |
| `LazyImages.LazyImage.OnEntry` | script.js:138-145 | updates the image in place: revealed when intersecting, untouched otherwise |
| `LazyImages.HandleEntries` | script.js:136-147 | after a batch every image named in it is revealed exactly when some entry reports it intersecting, and is otherwise untouched |

## Left out

- The loading screen (script.js:6-27) is not modelled: it only runs timers and changes styles.
- The ripple effect (script.js:184-202, 321-324) is not modelled. Its geometry is floating-point layout arithmetic, and its removal runs on a timer.
- The `email-loading` class and the delivery of the link are not modelled: the hidden anchor and its `click`, the `window.location` fallback, the `alert`, and the timers that clean up (script.js:210, 270-310). The model stops at the finished link.
- SmoothScroll.TargetClearsHeader: `offsetTop` is measured by the browser from the target's offset parent (its nearest positioned ancestor), but the model takes it as the target's distance from the top of the page, so the 80-pixel result holds only when that parent is the body or starts at the page top.
- SmoothScroll.AnchorClick: a throw from `window.scrollTo` or `history.pushState` lands in the same `catch` as an invalid selector (script.js:100-103) and navigates to the `href` after the scroll has started; the model does not cover that failure.
- The effects of the navigation itself are not modelled: `window.scrollTo`, its animation, `history.pushState` and `window.location.href`. `SmoothScroll.AnchorClick` returns them as an action.
- The browser's clamping of a scroll position at the bottom of the page is not modelled; `SmoothScroll.Settled` covers only the top.
- `requestAnimationFrame` scheduling is not modelled: frames are explicit events.
- Observer availability is not modelled: the branch taken when `IntersectionObserver` is missing, and the registration of images with the observer (script.js:133-135, 149-151).
- The image `error` styling (script.js:155-163) and the hero-image preload (script.js:169-176) are not modelled: they only change styles or add markup.
- Lone UTF-16 surrogates are not modelled. `encodeURIComponent` throws a `URIError` for them, but Dafny strings hold Unicode scalar values, so no such input can be written.
- `NavScroll.ScrollOffset` does not model the `NaN` readings, which `||` would also skip; positions are exact reals.
- What happens if an anchor's `href` attribute is removed after the listeners are attached is not modelled.
