# Food tracker: item store rules and expiration notifications

This Dafny project models the two pieces of logic in the food-expiry tracker
backend:

- **The item store's write and read rules** (`backend/Program.cs`). `POST /fooditems`
  checks its input in a fixed order. A null, empty or white-space name gives
  `BadRequest("Name is required")`. A `default` expiration date gives
  `BadRequest("ExpirationDate is required")`. A name that equals a stored name
  after `ToLower` gives `Conflict`. Otherwise one item is inserted and
  `Created("/fooditems/{id}")` is returned. `DELETE /fooditems/{id}` removes
  the item with that id, or gives `NotFound`. `GET /fooditems` lists the items
  ordered by expiration date.
- **The expiration notification service** (`backend/Services/ExpirationNotificationService.cs`).
  `ExecuteAsync` runs one check at once, then waits 24 hours, and repeats until
  cancellation. A check queries the items whose expiration date lies in
  `[now, now + 7 days]`. If any are found and a recipient is configured, it sends
  one mail. The mail body is a fixed header and one `Name - date` line per item.

Dates are `DateTime` tick counts (`int`), so `default(DateTime)` is tick 0 and
seven days is `7 * 864_000_000_000` ticks. The database table is a `seq<FoodItem>`
held by the class `FoodStore.Store`. The id the database would assign is the
store's `nextId` counter. `Create` and `Delete` are methods that change the
store in place. The `Store.Valid()` invariant says four things about the stored
items:

- every name passed the required-field check;
- every date is set;
- ids are issued in increasing order and are below `nextId`;
- no two names are equal under case-folding.

The notification side is pure functions, plus one method with a loop for
`ExecuteAsync`. The clock (`now`), the store contents a query sees, a query
that throws, the SMTP outcome and the moments cancellation is requested are
inputs, given per loop round as a `Round` value. A round's `CancelPoint` says
whether cancellation is requested during the check, during the 24-hour delay,
after the delay has completed, or not at all. The round's delay completes only
in the last two cases.

Modules: `Wrappers` (Option), `FoodModel` (record, white space, case folding,
uniqueness), `Decimal` (id in the `Location` path), `Ordering` (the `OrderBy`
listing), `FoodStore` (the three endpoints), `ExpirationNotification` (the
background service).

Only the SMTP part of `SendNotificationEmailAsync` is inside `try`/`catch`
(`ExpirationNotificationService.cs:67-91`). An exception from the query at lines
45-50 propagates out of `CheckExpirationsAsync` and ends `ExecuteAsync`. So
`CheckExpirations` returns `Faulted` exactly when the query fails, and
`ExecuteAsync` stops after a faulted check (`FaultEndsTheLoop`). A failed send
does not stop the loop (`SendFailureIsContained`, `LoopSurvivesSendFailures`).

## Model

| member | source | states |
|---|---|---|
| `FoodModel.IsWhiteSpace` | backend/Program.cs:44 | Space, tab, line feed and carriage return count as white space; ASCII letters and digits do not. |
| `FoodModel.IsNullOrWhiteSpace` | backend/Program.cs:44 | A null or empty name is rejected; a name holding at least one non-white-space character is accepted. |
| `FoodModel.ToLower` | backend/Program.cs:50 | Folding keeps the length and folds each character on its own with `LowerChar`, which maps an upper-case ASCII letter to its lower-case letter. No upper-case ASCII letter is left, and every other character is unchanged. |
| `FoodModel.ToLowerIdempotent` | backend/Program.cs:50 | Folding a name twice gives the same result as folding it once, so folded names compare stably. |
| `FoodModel.ToLowerIgnoresCase` | backend/Program.cs:50 | Two names that differ only in the case of letters fold to the same string, so the uniqueness check treats them as one name. |
| `FoodModel.SameName` | backend/Program.cs:50 | The `AnyAsync` lambda: a stored item with a null name never matches. A stored name always matches itself. Matching names have equal length. |
| `FoodModel.NameTaken` | backend/Program.cs:50-51 | The `AnyAsync` query is true exactly when some stored item has a non-null name that equals the candidate after `ToLower` on both sides. |
| `FoodModel.AppendKeepsNamesUnique` | backend/Program.cs:50-61 | If the stored names are pairwise distinct under case-folding and the uniqueness query did not find the new name, they stay distinct after the insert. |
| `FoodModel.RemoveKeepsNamesUnique` | backend/Program.cs:72-73 | Removing any one item keeps stored names pairwise distinct under case-folding. |
| `Decimal.NatToString` | backend/Program.cs:63 | An id renders as a non-empty string of decimal digits with no leading zero. |
| `Decimal.ParseNatToString` | backend/Program.cs:63 | Reading the digits of a rendered id gives back the id. |
| `Decimal.NatToStringInjective` | backend/Program.cs:63 | Distinct ids give distinct `Location` paths. |
| `Ordering.Insert` | backend/Program.cs:40 | Inserting into a list sorted by expiration date keeps it sorted; the result holds the old items plus the new one. |
| `Ordering.SortByExpiration` | backend/Program.cs:39-40 | The listing is sorted ascending by `ExpirationDate` and is a permutation of the store (same multiset). |
| `Ordering.SortKeepsItems` | backend/Program.cs:39-40 | An item is in the listing if and only if it is in the store. |
| `Ordering.SortedHeadIsEarliest` | backend/Program.cs:40 | The first listed item expires no later than any stored item. |
| `FoodStore.IndexOfId` | backend/Program.cs:68-70 | The lookup by id finds nothing exactly when no stored item has that id; otherwise it finds a position holding that id. |
| `FoodStore.Store.List` | backend/Program.cs:39-40 | GET returns the store's items sorted ascending by expiration date, as a permutation of the store. |
| `FoodStore.Store.Create` | backend/Program.cs:42-64 | Checks run in source order: name, then date, then uniqueness. Each error leaves items and id counter unchanged. Success appends exactly one item with the next id, the given name and date, returns `Created("/fooditems/" + id)`, and keeps the invariant. |
| `FoodStore.Store.Delete` | backend/Program.cs:66-76 | An unknown id gives `NotFound` and leaves the store unchanged. A known id gives `NoContent` and removes exactly that position, keeping the others in order. The id counter never goes back. |
| `FoodStore.RemoveKeepsWellFormed` | backend/Program.cs:72-73 | Removing an item keeps the store invariant (validated fields, increasing ids below the counter, unique names). |
| `FoodStore.DeleteRemovesExactlyOne` | backend/Program.cs:68-75 | After a delete, the store is the old multiset minus the one found item, and no item with that id remains. |
| `FoodStore.CreatedItemIsListed` | backend/Program.cs:39-40 | An appended item appears in the GET listing. |
| `FoodStore.MilkThenMilk` | backend/Program.cs:44-63 | On an empty store, creating "Milk" succeeds with id 1 and location `/fooditems/1`. Creating "milk" next gives `Conflict`. The listing then holds only the first item. |
| `ExpirationNotification.InWindow` | backend/Services/ExpirationNotificationService.cs:49 | A date equal to `now` or to `now + 7 days` is in the window; a date before `now` or after `now + 7 days` is out. |
| `ExpirationNotification.Window` | backend/Services/ExpirationNotificationService.cs:48-50 | An item is in the query result exactly when it is stored and `now <= ExpirationDate <= now + 7 days`. |
| `ExpirationNotification.WindowCounts` | backend/Services/ExpirationNotificationService.cs:48-50 | The result keeps every copy of each in-window item and no copy of any out-of-window item. |
| `ExpirationNotification.WindowIsSubMultiset` | backend/Services/ExpirationNotificationService.cs:48-50 | The result is a sub-multiset of the store. |
| `ExpirationNotification.WindowBounds` | backend/Services/ExpirationNotificationService.cs:49 | Both ends are inclusive: `now` and `now + 7 days` are in. One tick before `now` is out, and so is one tick after `now + 7 days`. |
| `ExpirationNotification.WindowScenario` | backend/Services/ExpirationNotificationService.cs:48-50 | Items expiring in 3 days, in 10 days and 1 day ago: only the first is selected. |
| `ExpirationNotification.Join` | backend/Services/ExpirationNotificationService.cs:64 | Joining no parts gives the empty string; otherwise the result starts with the first part. |
| `ExpirationNotification.NameText` | backend/Services/ExpirationNotificationService.cs:64 | Definition: a null `Name` interpolates as the empty string, and a non-null one as itself. |
| `ExpirationNotification.Line` | backend/Services/ExpirationNotificationService.cs:64 | An item's line starts with its name text; for a null name it is `" - "` followed by the formatted date. A line whose name and date hold no line break holds none itself. |
| `ExpirationNotification.Body` | backend/Services/ExpirationNotificationService.cs:63-64 | The body starts with the fixed header. With no items it is the header alone; with one item it is the header followed by that item's line. |
| `ExpirationNotification.SplitJoin` | backend/Services/ExpirationNotificationService.cs:64 | Joining newline-free lines with `"\n"` and splitting on `'\n'` gives back the lines. |
| `ExpirationNotification.BodyLines` | backend/Services/ExpirationNotificationService.cs:63-64 | The body starts with the fixed header. If names and dates hold no line break, the rest splits into exactly one `Name - date` line per item, in order. (`Lines` is the per-item `Line` of each queried item, in query order.) |
| `ExpirationNotification.SendNotificationEmail` | backend/Services/ExpirationNotificationService.cs:58-91 | No send is attempted exactly when the recipient is null or empty (`HasRecipient` is false); in particular a null or `""` address never gets a mail. Otherwise one message goes to that recipient with the fixed sender, subject and body. A transport failure shows as "not delivered", not as an error. |
| `ExpirationNotification.CheckExpirations` | backend/Services/ExpirationNotificationService.cs:43-56 | A check faults exactly when the query throws. A send is attempted exactly when the query succeeds, the window is non-empty and a recipient is set. The message body lists the window's items. |
| `ExpirationNotification.SendFailureIsContained` | backend/Services/ExpirationNotificationService.cs:67-91 | When the query succeeds, the check completes whether or not the send fails. |
| `ExpirationNotification.Trace` | backend/Services/ExpirationNotificationService.cs:36-40 | The loop runs at most one check per round. |
| `ExpirationNotification.TraceIsChecks` | backend/Services/ExpirationNotificationService.cs:36-38 | The k-th check the loop runs is the check of round k. |
| `ExpirationNotification.NoCheckAfterCancellation` | backend/Services/ExpirationNotificationService.cs:36-39 | No check starts after the round in which cancellation was requested. |
| `ExpirationNotification.FaultEndsTheLoop` | backend/Services/ExpirationNotificationService.cs:38 | A check whose query throws is the last check, and its outcome is `Faulted`. |
| `ExpirationNotification.LoopSurvivesSendFailures` | backend/Services/ExpirationNotificationService.cs:36-40 | If no query fails and no cancellation arrives in the first n rounds, at least n+1 checks run, whatever the SMTP outcomes. |
| `ExpirationNotification.RunFromIsTrace` | backend/Services/ExpirationNotificationService.cs:36-40 | The loop's accumulated outcomes equal the outcomes already run followed by the trace of the remaining rounds. |
| `ExpirationNotification.ExecuteAsync` | backend/Services/ExpirationNotificationService.cs:34-41 | The outcomes are exactly the trace: none if cancellation came before the start, otherwise the first check runs before any wait. The loop stops on a fault exactly when the last check faulted. Every check but the last is followed by one completed 24-hour delay. The last is followed by one too exactly when the loop ends by cancellation requested after that delay; otherwise (a fault, or cancellation during the check or the delay) it is not. `waited` is 24 hours per completed delay. (`DelayCompletes` holds for no cancellation and for cancellation after the delay, and fails for cancellation during the check or the delay.) |

## Left out

- HTTP routing, CORS, Swagger and the serialisation of result objects (`backend/Program.cs:9-37`, `78`): the handlers return the `Response` datatype.
- Entity Framework Core, Npgsql, `SaveChangesAsync`, DI scopes and the legacy-timestamp switch (`backend/Program.cs:7`, `12-13`, `backend/Data/FoodContext.cs`): the table is an in-memory sequence, and a save is the assignment to it.
- The declaration of `FoodItemDto` is not part of this model. Its shape (nullable `Name`, `ExpirationDate`) is taken from its use at `backend/Program.cs:42-57`, so `Create` takes those two values.
- `FoodModel.ToLower`: folds only the ASCII letters A-Z. The C# and SQL `lower` also fold other Unicode letters, so the model may report as distinct two names the C# code treats as equal. `ToLower()` also uses the current culture (under `tr-TR`, `"I"` folds to dotless `"ı"`), and the SQL `lower` uses the database's locale. So even ASCII names may fold differently from the model, and the client-side and database-side folds at `backend/Program.cs:50` may disagree with each other.
- Id assignment by the database: modelled as a counter starting at 1 that never goes back. The 32-bit overflow of `int` ids is not modelled.
- The race between the uniqueness query and the insert under concurrent requests: the model is sequential.
- `DateTime` kinds, UTC conversion, and the `AddDays(7)` overflow near `DateTime.MaxValue`: dates are plain tick counts.
- `DateTime.UtcNow`: the model reads one `now` per query. The database evaluates the `Where` clause against one statement time.
- The culture-dependent `{ExpirationDate:d}` format: a parameter `fmt` of `Settings`.
- The SMTP client, credentials, `MailMessage` and all logging, including the unconditional "sent successfully" log in the `finally` block (`ExpirationNotificationService.cs:93-96`). Sending is the `transport` outcome of a round.
- `Task.Delay` and real time: a completed delay is counted in `delays`, and `waited` adds `CheckInterval` (24 hours in ticks) for each. A cancellation during the delay makes `Task.Delay` throw `TaskCanceledException`, which ends `ExecuteAsync`; the model reports that end as `Cancellation` and does not distinguish it from the end at the `while` test.
- `ExpirationNotification.ExecuteAsync`: covers only runs whose schedule of rounds is finite and ends with a cancellation request (or starts cancelled). A run that is never cancelled and never faults cannot be written as a terminating method. `LoopSurvivesSendFailures` covers any finite prefix of such a run.
- What the host does after `ExecuteAsync` ends with an exception: outside the service.
- The `OrderBy` order among items with equal dates: the database's `ORDER BY` does not fix it, so only sortedness and permutation are stated.
- The frontend (`frontend/src/App.tsx`, `frontend/src/main.tsx`): UI state and fetch calls.
