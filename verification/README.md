# ESP32 LED controller: debounced dispatcher and device client

This project models, in Dafny, the control logic of the SwiftUI app that drives
an ESP32 LED controller over HTTP. The app shows a power button and three mode
buttons. Every press updates the view's state (`isLedOn`, `mode`). It then hands
the resulting `(turnOn, mode)` pair to `sendLedRequestDebounce`. That function
keeps one work-item slot: a new submit cancels the scheduled item and schedules
a fresh one 0.5 s later. The item captures the submitted values. When it runs,
`sendLedRequest` builds `GET <base>?turnOn=on|off&mode=<n>`. The completion
handler then checks the reply in a fixed order: transport error, HTTP response,
status 200, data present, JSON decodes to `LedResponse`.

Modules:

- `Wrappers` is the `Option` type that stands in for Swift optionals.
- `Control` holds the view state, the desired state, and the power and mode
  button actions.
- `Debounce` is the work-item slot as a state machine over logical time in
  milliseconds. It has two events: `Submit(state, now)` and `Advance(now)`.
  `Run` folds a trace of events. `Surviving` is an independent, index-based
  reference: it says which submits get sent. The theorem `RunIsSurviving` proves
  that `Run` and `Surviving` agree. Coalescing, separation, cancellation and
  capture follow from it.
- `Query` covers decimal printing of `Int`, the two query items and the
  `name=value&name=value` query component (section 3.4 of RFC 3986). It also
  has a reference parser for the query string, written as their inverse.
- `Client` covers request construction and the classification of a completion
  into an `Outcome`. 200 is the "200 OK" of section 15.3.1 of RFC 9110.
- `App` is the view as a whole: user presses and clock ticks drive the view
  state and the dispatcher together.

Timing rule. An item scheduled at `t` runs once the clock reads `t + 500`, so
submits exactly 500 ms apart each produce a send. When a submit arrives at or
after the pending item's deadline, the model lets the due item run first and
only then replaces the slot. This is an assumption about the main queue's
ordering, recorded under "Left out". After an item runs, the slot is empty. The
source keeps a reference to the executed item, but `cancel()` on an executed
item does nothing, so the two are equivalent.

## Model

| member | source | states |
|---|---|---|
| Control.Toggle | esp32/ContentView.swift:41-43 | the power button flips `isLedOn`, keeps the mode, and submits the new flag with the current mode |
| Control.SelectMode | esp32/ContentView.swift:57-86 | a mode button sets the mode to 1, 2 or 3, keeps the power flag, and submits the flag with the new mode |
| Control.SubmittedIsShown | esp32/ContentView.swift:42-43 | every press submits exactly the state the view shows after the press |
| Debounce.Step | esp32/ContentView.swift:107-116 | after a submit the slot holds exactly the new item, due 500 ms later; a step sends something only when the scheduled item is due, and then it sends that item's captured state; a clock step that runs the item leaves the slot empty, so an item runs at most once |
| Debounce.Run | esp32/ContentView.swift:107-117 | a run sends only states that were submitted or already scheduled, and no more sends than submits plus the item already scheduled |
| Debounce.RunIsSurviving | esp32/ContentView.swift:107-117 | from an idle slot, the states sent are exactly those of the submits for which a later event reaches the deadline before any newer submit, in submit order |
| Debounce.CancelledNeverFires | esp32/ContentView.swift:108-116 | on a trace whose times never decrease, a submit followed less than 500 ms later by another submit is not among the surviving submits, so by `RunIsSurviving` it is never sent |
| Debounce.Coalescing | esp32/ContentView.swift:107-117 | when consecutive submits are less than 500 ms apart, at most one state is sent; it is the last one submitted, and it is sent iff some later event reaches its deadline |
| Debounce.Separation | esp32/ContentView.swift:107-117 | when consecutive submits are at least 500 ms apart and the last deadline is reached, every submitted state is sent, in order |
| Debounce.CapturedAtSubmit | esp32/ContentView.swift:110-112 | with no newer submit, a scheduled item can only ever send the state it captured |
| Query.IntToDecimal | esp32/ContentView.swift:128 | an `Int` prints as a canonical decimal numeral (no leading zero, no `-0`) that starts with `-` exactly when the number is negative |
| Query.NatRoundTrip | esp32/ContentView.swift:128 | reading the printed decimal numeral of a natural number gives the number back |
| Query.IntToDecimalInjective | esp32/ContentView.swift:128 | two `Int`s print the same decimal string iff they are equal |
| Query.Encode | esp32/ContentView.swift:126-129 | the query list has exactly two items, `turnOn` then `mode`; `turnOn` is `on` iff the flag is set and `off` otherwise; the mode value reads back as the mode and is a canonical decimal numeral (no leading zero, no `-0`), which by `Query.CanonicalDecimalUnique` makes it exactly the decimal string of the mode |
| Query.CanonicalDecimalUnique | esp32/ContentView.swift:128 | a canonical decimal numeral that reads as n is the numeral printed for n, so each integer has exactly one such string |
| Query.DecodeEncode | esp32/ContentView.swift:126-129 | decoding the encoded query items gives back the desired state |
| Query.EncodeInjective | esp32/ContentView.swift:126-129 | two desired states encode to the same query list iff they are equal |
| Query.EncodedUnreserved | esp32/ContentView.swift:125-129 | every query name and value consists of RFC 3986 unreserved characters, so building the URL escapes nothing |
| Query.RequestQuery | esp32/ContentView.swift:125-132 | the query component of the URL is `turnOn=on&mode=` or `turnOn=off&mode=`, chosen by the power flag, followed by the mode's decimal numeral |
| Query.RequestQueryRoundTrip | esp32/ContentView.swift:125-132 | a reference parser reads the query string `turnOn=..&mode=..` back to exactly the desired state |
| Query.RequestQueryInjective | esp32/ContentView.swift:125-132 | two desired states give the same query string iff they are equal |
| Client.BuildRequest | esp32/ContentView.swift:123-139 | a request exists iff the base URL parses and the components yield a URL; it is a GET whose query items are exactly the encoding of the submitted state, and they decode back to it |
| Client.Classify | esp32/ContentView.swift:142-168 | success with the decoded record iff there is no error, the response is HTTP 200 and the data is present and decodes; a transport failure happens iff the data task reported an error, and carries it; a bad status carries the non-200 code of the HTTP response; a completion is never an invalid URL |
| Client.ClassifyFirstFailing | esp32/ContentView.swift:142-168 | the outcome names the first failing check, in the order transport error, non-HTTP response, status other than 200, missing data, decode failure; success iff all five pass |
| Client.DeliveredIff | esp32/ContentView.swift:153-165 | success with record r iff there is no error, the response is HTTP 200, data is present and decodes to r; the record's own `success` flag is not consulted |
| Client.FailurePayloads | esp32/ContentView.swift:143-156 | a transport failure carries the error the data task reported; a bad status carries the non-200 code of the HTTP response; a completion is never classed as an invalid URL |
| Client.Send | esp32/ContentView.swift:121-176 | no request is issued exactly when the URL cannot be built, and that is reported as an invalid URL; otherwise the request's query component is exactly `Query.RequestQuery` of the state, its items decode back to the state, and the outcome is the completion's classification |
| Client.InvalidUrlIgnoresNetwork | esp32/ContentView.swift:132-135 | when the URL cannot be built, the result is an invalid URL whatever the network would have done |
| Client.RequestDeterminedByState | esp32/ContentView.swift:126-139 | the request depends only on the desired state, and distinct states give distinct requests |
| App.Launch | esp32/ContentView.swift:26-27 | the view starts with the LED off, the mode read from storage, and no scheduled work item |
| App.AppStep | esp32/ContentView.swift:41-116 | a power press flips the view's flag, keeps its mode, and schedules the flipped flag with the current mode; a mode press sets the view's mode, keeps its flag, and schedules the flag with the chosen mode; a tick leaves the view alone and empties the slot exactly when it sends; anything sent is the previously scheduled item's state, sent exactly when it is due |
| App.AppRun | esp32/ContentView.swift:41-117 | a run of user events sends at most once per event; `App.AppRunIsDispatcherRun` states exactly what it sends |
| App.AppRunIsDispatcherRun | esp32/ContentView.swift:41-117 | a run of user events sends exactly what the debouncer sends on the derived submit/advance trace, so the debouncer theorems hold for the whole view |
| App.ModesStayValid | esp32/ContentView.swift:27-86 | from a valid mode, the view's mode and the mode of every request sent stay in 1..3 |
| App.DefaultLaunchSendsValidModes | esp32/ContentView.swift:26-27 | from launch with the default mode 1, every request sent has mode 1, 2 or 3 |
| App.ModeValidAfterModePress | esp32/ContentView.swift:57-86 | once a mode button has been pressed, the mode is in 1..3 whatever value storage held |
| App.FireIgnoresView | esp32/ContentView.swift:110-112 | a work item that runs sends the state it captured, independent of the view's state at that moment |

## Left out

- SwiftUI layout, `ActiveTextStyle`, colours, animations and `matchedGeometryEffect` (esp32/ContentView.swift:4-13, 32-104) are presentation only.
- `@AppStorage` persistence of `mode` is not modelled. The stored value is the initial state: see `App.Launch`.
- `DispatchQueue`, `DispatchWorkItem` and wall-clock time become logical millisecond timestamps on events. Cancelling an item that is already running is a concurrency concern and is not modelled.
- `URLSession` networking is not modelled: the completion handler's arguments are an input record. Overlapping requests and out-of-order completions are also outside the model, because they involve concurrency.
- `print` logging is replaced by the returned `Outcome`. The source only prints, so the outcome is what the branches distinguish, not something it hands to a caller.
- `URL(string:)`, `URLComponents.url` and `JSONDecoder` are foreign calls. They enter as two booleans and a total decoder function `decode`.
- Swift `Int` is 64 bits wide; the model uses unbounded integers for the mode. The buttons only ever assign 1, 2 or 3.
- Queue ordering is an assumption: a work item that is due runs before any later button action. The source does not guarantee this. If the main thread is still busy when the deadline passes, a button action can run first, and its `workItem?.cancel()` (esp32/ContentView.swift:108) then drops the item. The model sends the item in that case: see `Debounce.Step` and `Debounce.Separation`.
- The model has no teardown event. In the source, a scheduled item still runs after the view goes away, because the queue holds it and its closure uses only the captured values (esp32/ContentView.swift:110-116); only process exit drops it.
