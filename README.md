# In-memory session store (`ram` package), modelled in Dafny

The `ram` package keeps web sessions in memory. A `Store` owns a session
table made of three fields kept consistent by hand:

- the map `sessions` from session id to `Session`;
- the dense slice `array` of the ids, in creation order (called `ids` here,
  because `array` is a Dafny keyword);
- the counter `index`.

Each session records its own position in that slice. A server goroutine
serves the commands create, activate (retrieve), deactivate (destroy),
touch and timecheck (the expiry sweep). The public calls `Store.Create`,
`Store.Restore`, `Store.Destroy` and `Store.Period` check the id, send one
command and turn the reply into an error. A `Session` is a handle: `Set`,
`Get` and `Del` touch the session through its store, then read or write its
value bag, which the table entry and every copy share.

The model has three modules:

- `Seqs` (`seqs.dfy`): distinct sequences and the order-preserving filter
  `Keep`, with the facts about removing one element that the table needs.
- `Ram` (`ram.dfy`): the store as a class whose methods change its fields
  in place.
  - The table invariant is `TableInv`: `|ids| == |sessions| == index`, no id
    repeats, and `sessions[ids[i]].index == i`.
  - Each command's effect is a function on a `Table` value: `Created`,
    `Touched`, `Destroyed` and `WithData`. The sweep's effect is the
    relation `Swept`.
  - Each method's `ensures` ties the new state to that function of the old
    state, and keeps `Valid()`.
  - Lemmas about the functions state what the package promises.
- `SessionTest` (`session_test.dfy`): the two scenarios of the package's
  tests, replayed against the model, with the replies the model gives.

The server's serialisation is taken for granted: each command runs to
completion on the store. The clock is an integer `now` passed in by the
caller.

### Where the code and the package's description differ

The model follows the code in each of these places:

- `Store.Restore` sends a `touch` command, not `activate` (ram/ram.go:295).
  Restoring a session therefore refreshes its `modified` time and returns
  the stored lifetime. `retrieve` is reachable only as the `Activate`
  command of `Serve`.
- A duplicate `Store.Create` fails with `ErrNoSession` (ram/ram.go:275-277).
  It is not a collision error.
- `Store.Destroy` of a poorly formed id returns `ErrNoSession`
  (ram/ram.go:312-313), not `ErrPoorForm`.
- On a copy with no store or with `active == false`:
  - `Set` fails with `ErrTimedOut`;
  - `Get` and `Del` fail with `ErrPoorForm` (ram/ram.go:385-386, 412-413, 442-443).
- The package's tests expect `Err09Record` and `Err08Resource`. The store
  never returns these. The scenarios here state the errors the code returns:
  `ErrNoData` and `ErrNoSession`.
- A requested lifetime is converted with `time.Duration(maxage) * time.Second`
  (ram/ram.go:269), which wraps at 64 bits.
  - A request above 9223372036 seconds can come out negative. The session
    then silently gets the default lifetime (`OversizedMaxAgeWraps`).
  - A request below -9223372036 seconds can come out positive. The session
    then keeps that value as its lifetime, about 292 years for
    -9223372037 seconds (`UndersizedMaxAgeWraps`).

## Model

| member | source | states |
|---|---|---|
| Ram.Wrap64 | ram/ram.go:269 | the result is the 64-bit two's-complement value congruent to the input, and is the input itself when it fits in int64 |
| Ram.DivTrunc | ram/ram.go:103 | Go's integer division truncates toward zero: the remainder has the dividend's sign and is smaller than the divisor |
| Ram.MaxAgePolicy | ram/ram.go:100-104 | a positive request whose nanosecond value fits in int64 is kept, converted to nanoseconds; a non-positive one that fits gives the period divided by 2, which lies between 0 and half the period |
| Ram.OversizedMaxAgeWraps | ram/ram.go:269 | a request of 9223372037 seconds wraps to a negative Duration, so the session gets the default lifetime |
| Ram.UndersizedMaxAgeWraps | ram/ram.go:100-104 | a request of -9223372037 seconds wraps to a positive Duration, which `create` keeps as the lifetime (9223372036709551616 ns) |
| Ram.EntriesValid | ram/ram.go:464-466 | every session held in a consistent table reports `Valid`; the zero Session, the reply for a missing id, does not |
| Ram.InvSizes | ram/ram.go:234-237 | in a consistent table the ids are distinct and `|ids| == |sessions| == index` |
| Ram.CreatedInv | ram/ram.go:105-108 | inserting an active session with a free id at position `index`, appending its id and incrementing `index` keeps the table consistent; it adds exactly one entry, and that entry's id sits at its recorded position |
| Ram.CreatedOwned | ram/ram.go:90-108 | the same insertion keeps every entry pointing back to the owning store |
| Ram.TouchedInv | ram/ram.go:158-162 | a touch keeps the table consistent and changes only that entry's `modified`; a touched entry with a non-negative lifetime is not expired at the time of the touch |
| Ram.WithDataInv | ram/ram.go:402 | rewriting an entry's value bag keeps the table consistent and changes no other entry and no id |
| Ram.DestroyedAt | ram/ram.go:212-221 | after removal, the compacted slice at position `i` names an entry whose index is `i` |
| Ram.DestroyedEntry | ram/ram.go:212-224 | every remaining entry records its position in the compacted slice and is still active under its own id |
| Ram.DestroyedConsistent | ram/ram.go:212-224 | removing a present entry and renumbering the later ones gives a consistent table |
| Ram.DestroyedOrder | ram/ram.go:213 | the spliced slice is the old slice with the removed id filtered out, in the old order |
| Ram.DestroyedInv | ram/ram.go:212-224 | destroying a present id keeps the table consistent, removes exactly that id, keeps the others in order, and shrinks the table by one |
| Ram.DestroyedShifts | ram/ram.go:216-221 | entries before the removed position are unchanged; each entry after it is unchanged except that its index is decremented by exactly one |
| Ram.DestroyIdempotent | ram/ram.go:202-210 | destroying is idempotent and leaves the id absent; the id can then be created again and the table stays consistent |
| Ram.RenumberedStep | ram/ram.go:216-221 | one turn of the renumbering loop decrements the index of the entry at the next position and leaves every other entry alone |
| Ram.Renumber | ram/ram.go:216-221 | the loop decrements the index of every entry after position `p`, and of no other entry |
| Ram.DestroyedFrom | ram/ram.go:212-224 | the splice, the renumbering loop and the map delete together give exactly `Destroyed`, owned by the same store |
| Ram.SweptOutcome | ram/ram.go:180-185 | after a sweep at `now`, no remaining session is expired; every session that was not expired is still present with its value bag; no id is added |
| Ram.SweepVisit | ram/ram.go:180-185 | visiting one key destroys the session if `now - modified > maxage`, and otherwise keeps it; the sweep's progress invariant is preserved either way |
| Ram.SweptUnique | ram/ram.go:180 | the table after a sweep is determined by the table before it, whatever order the map iteration visits the keys in |
| Ram.SweptKeepsOrder | ram/ram.go:180-185 | two surviving sessions keep their relative order in the id slice |
| Ram.FilteredOrder | ram/ram.go:213 | a consistent table whose ids filter another table's ids orders any two of its keys as the other table does (both directions) |
| Ram.TouchedSurvivesSweep | ram/ram.go:182 | a session touched at `now` with a non-negative lifetime survives a sweep at `now`, with its value bag intact |
| Ram.Session.Set | ram/ram.go:380-404 | on a copy with no store or not active: ErrTimedOut, table unchanged; an id gone from the table: ErrTimedOut, table unchanged; otherwise the entry is touched and its shared value bag maps `key` to `value`; the store's period is unchanged |
| Ram.Session.Get | ram/ram.go:407-434 | on a copy with no store or not active: ErrPoorForm; an id gone from the table: ErrNoSession; otherwise the entry is touched, and the result is the value under `key` in the table's bag, or ErrNoData; the store's period is unchanged |
| Ram.Session.Del | ram/ram.go:437-461 | on a copy with no store or not active: ErrPoorForm; an id gone from the table: ErrNoSession; otherwise the entry is touched and `key` is removed from its shared value bag; the store's period is unchanged |
| Ram.Store.Init | ram/ram.go:243-253 | a new store has an empty, consistent table and a 20-minute period |
| Ram.Store.CmdCreate | ram/ram.go:79-114 | a taken id returns the zero Session and changes nothing; a free id returns the new active session, with the lifetime policy applied and position `index`, appended to the table |
| Ram.Store.CmdRetrieve | ram/ram.go:118-136 | returns the stored entry with only `maxage` replaced, or the zero Session; the table is not written |
| Ram.Store.CmdTouch | ram/ram.go:155-169 | the table becomes `Touched`; the reply is the refreshed, active entry, or the zero Session when the id is absent |
| Ram.Store.DestroyEntry | ram/ram.go:198-230 | the table becomes `Destroyed` (absent id: unchanged) and stays consistent |
| Ram.Store.CmdDestroy | ram/ram.go:140-151 | the table becomes `Destroyed`, and the id is absent afterwards |
| Ram.Store.CmdTimeout | ram/ram.go:174-186 | the table after the loop is `Swept` from the table before it at `now` |
| Ram.Store.Serve | ram/ram.go:54-74 | each command kind has the effect and the reply of its handler; deactivate and timecheck reply with the zero Session; an unhandled command halts the server |
| Ram.Store.Create | ram/ram.go:257-280 | a poorly formed id gives ErrPoorForm and no command; a taken id gives ErrNoSession; otherwise a new active session with the lifetime `maxage` seconds, wrapped to 64 bits |
| Ram.Store.Restore | ram/ram.go:284-307 | a poorly formed id gives ErrPoorForm; an absent id gives ErrNoSession; otherwise the entry is touched and returned |
| Ram.Store.Destroy | ram/ram.go:310-325 | a poorly formed id gives ErrNoSession and changes nothing; any other id is destroyed without error and is absent afterwards |
| Ram.Store.Period | ram/ram.go:328-332 | the period is replaced and the previous one returned; the table is untouched |
| SessionTest.Deactivate | session_test.go:9-51 | create, set, destroy and re-create all succeed, and the re-created session's value bag is empty (ErrNoData) |
| SessionTest.Activate | session_test.go:53-131 | a second handle obtained by Restore reads the values set through the first; a duplicate create is refused; after Del through one handle, the other sees ErrNoData; a later Set is seen through the other handle |

`Store.touch` (ram/ram.go:353-364) only sends the touch command and is
folded into `Ram.Store.CmdTouch`. `Session.Valid` (ram/ram.go:464-466)
returns the copy's own `active` flag and is `Ram.Session.Valid`; what it
reports is stated by `Ram.EntriesValid`.

## Left out

- Goroutines and channels are not modelled: the command channel, the reply channels, the `go sessionServer` call in `Init` and the timer goroutine in `startTimer` (ram/ram.go:243-253, 336-350). Each command runs to completion on the store, which is the effect the server's serialisation gives.
- Logging is not modelled. The fatal log in `def` (ram/ram.go:189-193) is `Serve` returning `halted`.
- `time.Now` and `time.Since` are the integer parameter `now`. The real sweep re-reads the clock for each key (ram/ram.go:182); the model uses one `now` for the whole sweep.
- `created` and `modified` are unbounded integers. Overflow of the time subtraction in the expiry test is not modelled.
- The uuid library is not part of this model. Its `Variant() == uuid.Invalid` test is the store's `poorlyFormed` function, fixed when the store is built. Ids are two 64-bit halves.
- The `fname:` prefix that `fmt.Errorf` puts on each error is dropped. Errors are compared by kind.
- `interface{}` values are a type parameter `V`. The test scenarios use a small `Value` type of integers and strings.
- session.go is not part of this model. `NewManager` only picks this backend.
- Ram.Session.Set, Ram.Session.Get, Ram.Session.Del: the shared Go map is the table entry's `data`. A copy's own `data` field is not updated, so aliasing between copies is captured only through the table.
- Ram.Store.CmdTimeout: Go's map iteration order is an arbitrary choice (`:|`). `SweptUnique` shows that the outcome does not depend on it.
- Ram.Renumber: the renumbering loop works on a local copy of the map, which `DestroyEntry` then assigns to the field once. The splice is one assignment, not Go's in-place `append`.
