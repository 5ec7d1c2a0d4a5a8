# beaty.pro: the logic behind the site, modelled in Dafny

The site is mostly markup. Four small pieces of it hold logic, and this project models each one and proves what it promises:

- **Globe** (`src/components/Globe.tsx`). The ray-casting point-in-ring test and containment in a GeoJSON Polygon or MultiPolygon, with holes, live in `geometry.dfy`. So does the halftone-dot grid scanned over a feature's bounding box. The rotation pair `[yaw, pitch]`, the auto-rotate flag and the zoom scale, as mousedown, mousemove, mouseup, the wheel and the rotation timer update them, are the class `GlobeView.Globe` in `globe_view.dfy`.
- **Typewriter** (`useTypewriter` in `src/components/Hero.tsx`). The step function of the `tick` timer over `(text, phraseIndex, isDeleting)` is in `typewriter.dfy`, with the class `Typewriter.Typewriter` whose `Tick` and `EndPause` methods follow it.
- **Contact endpoint** (`POST` in `src/app/api/contact/route.ts`). Required-field validation, the composed email and the response are in `contact_route.dfy`.
- **Contact form** (`src/components/ContactForm.tsx`). The six-field record, the per-field update and the submission status machine are the class `ContactForm.Form` in `contact_form.dfy`.

`wrappers.dfy` holds the `Option` type. It stands for JavaScript's missing values and for calls that throw.

Modelling choices:

- **Numbers.** Coordinates, angles and the scale are exact `real`s. The grid scan accumulates `lng += stepSize` exactly. `Geometry.Lattice` is that accumulation, and `Geometry.LatticeIsLinear` shows it equals `min + k·step`.
- **Empty polygons.** A Polygon without rings, or a MultiPolygon part without rings that the scan reaches, makes the source read `coordinates[0]` as `undefined` and throw. The model answers `None` there. On well-formed GeoJSON this never happens (`Geometry.ContainsWellFormed`).
- **`d3.geoBounds`.** The box it returns is the input `Geometry.Bounds`. A box with `minLng > maxLng`, which d3 returns for features that cross the antimeridian, yields no dots, as in the source.
- **Repeated mousedowns.** Each mousedown registers its own mousemove and mouseup listeners. The move listeners run in registration order, so the latest snapshot writes last, and `Globe` keeps only that snapshot. It counts the registered mouseup listeners and the 10 ms resume timers they schedule. A resume timer is the event `Globe.Resume`.
- **Typewriter timing.** The typewriter effect depends on `text`. Every tick that changes `text` re-renders, and the re-render cancels the timer that tick set and schedules a fresh tick. So the pause before deleting survives only when a typing tick finds the phrase already complete. The model records that in `paused`, and the pause's expiry is `EndPause`. Delays are not modelled, only the order of the firings.
- **Form timers.** The form's 4000 ms reset timers and its in-flight fetches are counts. A reset timer that fires while a later submission is in flight returns the status to idle. That re-enables the button, so another submission can start beside the pending one. `ContactForm.StaleResetReopensSubmission` walks through this sequence.

## Model

| member | source | states |
|---|---|---|
| Geometry.PointInPolygon | src/components/Globe.tsx:50-61 | the result is true iff an odd number of ring edges are crossed. Edge i joins vertex i to vertex i-1, and the first vertex is joined to the last. An edge is crossed when it straddles the point's latitude and meets the eastward ray strictly east of the point. |
| Geometry.CrossingsCountsCrossedEdges | src/components/Globe.tsx:53-59 | the loop's running toggle count equals the size of the set of crossed edges among the first k |
| Geometry.HorizontalEdgeNeverCrosses | src/components/Globe.tsx:56 | an edge with equal end latitudes never toggles the result. The crossing test's division is evaluated only after the straddle test holds, so it is well defined. |
| Geometry.InRingRotationInvariant | src/components/Globe.tsx:53 | starting the ring at its second vertex gives the same verdict. The cyclic pairing makes the starting vertex irrelevant. |
| Geometry.InRingClosingVertexInvariant | src/components/Globe.tsx:53-57 | repeating the first vertex at the end, as GeoJSON rings do, does not change the verdict |
| Geometry.SquareWithHoleExamples | src/components/Globe.tsx:64-72 | for a 4×4 square, a point inside is in and a point outside is out. With a square hole, a point in the hole is outside the polygon and a point between hole and rim is inside. |
| Geometry.PointInFeature | src/components/Globe.tsx:64-89 | the early-return loops and the `inHole` flag compute containment. A Polygon uses ring 0 and its holes. A MultiPolygon scans its parts in order. Any other type gives false. A missing ring yields None. |
| Geometry.PartsContainSpec | src/components/Globe.tsx:73-86 | a MultiPolygon fails iff a part without rings comes before every part holding the point. If every part has rings, the point is inside iff some part has it in its outer ring and in none of that part's holes. |
| Geometry.ContainsWellFormed | src/components/Globe.tsx:66-88 | on well-formed geometry no test fails. A Polygon contains the point iff ring 0 does and no ring 1..k-1 does. A MultiPolygon contains it iff some part does. Any other type gives false. |
| Geometry.StepsSpec | src/components/Globe.tsx:98-99 | the k-th accumulated step `min + step + … + step` is still ≤ max iff k is below the loop's iteration count |
| Geometry.GridMembers | src/components/Globe.tsx:94-99 | the scanned points are exactly the lattice points (minLng + i·step, minLat + j·step) that lie within [minLng,maxLng]×[minLat,maxLat] |
| Geometry.KeepSpec | src/components/Globe.tsx:100-104 | the scan keeps exactly the scanned points whose containment test answers true. It fails iff some point's test fails. |
| Geometry.GenerateDots | src/components/Globe.tsx:92-107 | the nested loops with step = spacing·0.08 return the contained grid points in column-major scan order. The result depends on the inputs alone, so identical inputs give identical dots. |
| Geometry.DotsSpec | src/components/Globe.tsx:92-106 | a point is a dot iff it is contained in the feature, lies in the box, and sits on the grid minLng + i·step, minLat + j·step |
| Geometry.DotsWellFormed | src/components/Globe.tsx:92-106 | for well-formed geometry the dot generation never fails |
| Geometry.GlobeDotsWellFormed | src/components/Globe.tsx:185 | the globe's spacing 18 gives a 1.44-degree grid, and the scan of every well-formed feature at that spacing returns dots |
| Geometry.LatticeIsLinear | src/components/Globe.tsx:98-99 | k additions of the step to min give min + k·step |
| GlobeView.Clamp | src/components/Globe.tsx:226 | `Math.max(lo, Math.min(hi, v))` lies in [lo, hi] when lo ≤ hi and is v when v is in range. Out of range it is the nearer bound. When hi < lo it is lo. |
| GlobeView.DragYaw | src/components/Globe.tsx:222-224 | yaw during a drag moves with the pointer's horizontal displacement. It equals the starting yaw when the pointer is back at its start. |
| GlobeView.DragPitch | src/components/Globe.tsx:223-226 | pitch during a drag is always in [-90, 90]. It equals the starting pitch when the pointer is back at its start height. |
| GlobeView.DragPitchSaturates | src/components/Globe.tsx:225-226 | a large enough upward drag pins the pitch at 90, and a large enough downward drag pins it at -90 |
| GlobeView.ZoomedScale | src/components/Globe.tsx:245-246 | for a non-negative radius the new scale is within [0.5r, 2.5r]. Scrolling down never enlarges an in-range scale, and anything else never shrinks it. A negative radius pins the scale at 0.5r. |
| GlobeView.Globe.constructor | src/components/Globe.tsx:35-37 | the scale starts at the radius, and the rotation at [0, 0] with auto-rotation on (lines 200-201). No drag is in progress. |
| GlobeView.Globe.Tick | src/components/Globe.tsx:204-210 | a timer frame adds 0.35 to yaw exactly when autoRotate is on. It never changes pitch or anything else. |
| GlobeView.Globe.MouseDown | src/components/Globe.tsx:214-218 | mousedown turns auto-rotation off and snapshots the pointer and the rotation |
| GlobeView.Globe.MouseMove | src/components/Globe.tsx:220-229 | while dragging, yaw = startYaw + 0.4·dx and pitch = clamp(startPitch − 0.4·dy, −90, 90), both from the snapshot. Pitch stays in [−90, 90]. With no drag, nothing changes. |
| GlobeView.Globe.MouseUp | src/components/Globe.tsx:231-236 | releasing removes the drag and schedules one resume timer per registered release handler |
| GlobeView.Globe.Resume | src/components/Globe.tsx:234-236 | a resume timer turns auto-rotation back on and changes nothing else |
| GlobeView.Globe.Wheel | src/components/Globe.tsx:243-249 | a wheel event sets scale to clamp(scale·(deltaY > 0 ? 0.92 : 1.08), 0.5r, 2.5r). The invariant keeps the scale in [0.5r, 2.5r]. |
| Typewriter.Substring | src/components/Hero.tsx:32 | `substring(0, end)` is a prefix of the phrase. The end is clamped to [0, length]. |
| Typewriter.TickStep | src/components/Hero.tsx:27-53 | a tick preserves the invariant: phraseIndex < n, text is a prefix of the phrase, and a pending pause means the phrase is complete |
| Typewriter.TickStepSpec | src/components/Hero.tsx:31-51 | a typing tick below full length appends the phrase's next character. At full length it leaves text unchanged and schedules the pause. A deleting tick removes the last character. When the text becomes empty, it switches to typing with phraseIndex (phraseIndex+1) mod n. |
| Typewriter.EndPauseStep | src/components/Hero.tsx:35-38 | ending the pause from a consistent state with the phrase complete leads to a consistent state |
| Typewriter.EndPauseStepSpec | src/components/Hero.tsx:35-38 | when the pause ends, the mode flips to deleting and one character is deleted at once. For a phrase of length ≤ 1 the effect then moves to the next phrase. |
| Typewriter.NextKeepsInv | src/components/Hero.tsx:43-47 | in every reachable state, deleting mode has a non-empty text |
| Typewriter.TypingPhase | src/components/Hero.tsx:31-41 | from j typed characters, |p| − j typing ticks complete the phrase |
| Typewriter.DeletingPhase | src/components/Hero.tsx:42-51 | from j > 0 characters in deleting mode, j ticks reach the empty text of the next phrase modulo n |
| Typewriter.PhraseCycle | src/components/Hero.tsx:27-53 | from the start of phrase i, 2|p|+1 firings (2 for an empty phrase) type the phrase, hold it, delete it and reach the start of phrase (i+1) mod n |
| Typewriter.VisitsPhrasesInOrder | src/components/Hero.tsx:45-48 | from the initial state, after k full phrase cycles the effect is at the start of phrase k mod n. Phrases are visited in order and wrap to 0 after the last. |
| Typewriter.HeroPhrasesRepeat | src/components/Hero.tsx:12-18 | with the hero's five phrases, one round of each returns to the initial state |
| Typewriter.Typewriter.constructor | src/components/Hero.tsx:21-22 | the state starts with empty text, phrase 0 and typing mode |
| Typewriter.Typewriter.Tick | src/components/Hero.tsx:27-53 | the imperative tick moves the state exactly as TickStep does and keeps the invariant |
| Typewriter.Typewriter.EndPause | src/components/Hero.tsx:35-38 | setting isDeleting and then calling tick moves the state exactly as EndPauseStep does |
| ContactRoute.SplitJoin | src/app/api/contact/route.ts:23-32 | joining lines with "\n" and splitting again gives back the lines when none of them holds a line break |
| ContactRoute.CompanyText | src/app/api/contact/route.ts:26 | the company text is never empty: an absent or empty company falls back to "Not provided", so the "Company:" line always carries a value |
| ContactRoute.BodyHasEightLines | src/app/api/contact/route.ts:23-32 | when the fields hold no line breaks, the email text is exactly eight lines: Name, Email, Company (with the fallback), Project Type, Budget Range, an empty line, "Project Description:" and the description |
| ContactRoute.BodyEndsWithDescription | src/app/api/contact/route.ts:29-31 | whatever the fields hold, the text ends with "\nProject Description:\n" followed by the description |
| ContactRoute.Post | src/app/api/contact/route.ts:6-43 | status 400 with "Missing required fields" and no email iff the body parsed but one of name, email, projectType, budget, description is missing or empty. Otherwise an email is attempted, with the fixed sender and recipient, replyTo the submitted email and subject "Quote Request: projectType - name". The attempted email is exactly the composed one, so the text lemmas apply to what is sent. The status is 200 with success iff the send call does not throw, and 500 with "Failed to send email" iff parsing or sending throws. |
| ContactForm.Update | src/components/ContactForm.tsx:39-42 | the named field takes the new value and the other five keep theirs |
| ContactForm.UpdateLaws | src/components/ContactForm.tsx:39-42 | writing a field's own value back changes nothing, and a second write to a field overrides the first |
| ContactForm.Payload | src/components/ContactForm.tsx:53 | since every key is present in the JSON body, the endpoint finds the payload complete iff the form's required fields are non-empty, and its company text is the form's company or "Not provided" when that is empty |
| ContactForm.SubmittedFormOutcome | src/components/ContactForm.tsx:50-56 | a submitted form gets an ok response iff its required fields are filled and the email goes out. It gets 400 iff a required field is empty. An attempted email replies to the form's email and has the subject "Quote Request: projectType - name" built from the form's fields. |
| ContactForm.Form.constructor | src/components/ContactForm.tsx:26-34 | the form starts with all six fields empty and status idle |
| ContactForm.Form.Change | src/components/ContactForm.tsx:36-43 | handleChange replaces the data by Update of the old data. The status is untouched. |
| ContactForm.Form.Submit | src/components/ContactForm.tsx:45-47 | submitting moves the status to submitting and sends the current data. While submitting, the disabled button (line 258) starts nothing. |
| ContactForm.Form.Settle | src/components/ContactForm.tsx:56-70 | an ok response moves to success and blanks all six fields. A non-ok response or a thrown fetch moves to error and keeps the data. Both schedule a reset. |
| ContactForm.Form.ResetFires | src/components/ContactForm.tsx:67-70 | the delayed reset returns the status to idle and leaves the data alone |

## Left out

- Drawing (`render`, the graticule, land outlines and dot projection) and all d3 calls: they are library and canvas calls. `d3.geoBounds` is replaced by the `Bounds` input.
- Canvas sizing, the device pixel ratio and the base radius computation: the radius is a constructor parameter of `Globe`.
- Fetching and parsing the land GeoJSON, error display, `setIsLoading`, and adding and removing DOM listeners: these are I/O and event wiring. The model keeps the dots of one feature. Concatenating the features' dots into `allDots` is not modelled.
- IEEE-754 rounding, in the accumulated `lng += stepSize` and in the crossing test's division: the model uses exact reals.
- Geometry.GenerateDots: requires spacing > 0. With a non-positive spacing and a non-empty box, the source loop never terminates.
- JSON values of other types than strings in the request body. The source would test their truthiness and stringify them. Here a field is an optional string.
- All delays (typing jitter with `Math.random`, the 60/35/400/2200 ms tick and pause delays, the 10 ms resume and the 4000 ms resets): timers are discrete events, and only their order is modelled.
- Typewriter.Typewriter.constructor: requires a non-empty phrase list. The hook indexes `phrases[0]` and takes the index modulo the length, and its only caller passes five phrases.
- Strings in JavaScript are UTF-16 code units. Here they are sequences of Dafny characters, which is the same for the ASCII phrases.
- Browser constraint validation of the form's `required` inputs, which can block the submit event before `handleSubmit` runs: it is HTML behaviour outside the component's code.
- The Resend SDK, `request.json`, NextResponse and `console.error`: the parse result and the send result are inputs of `Post`.
- ContactRoute.Post: the value the send call resolves to is not inspected, neither by the source nor by the model. An API failure that the SDK reports in its `{data, error}` result rather than by throwing still answers 200, so 200 means only that the call did not throw.
- The shader background, `About.tsx`'s code colouring, and the purely presentational components: they hold no logic of this kind.
