# Car insurance records, modelled in Dafny

This project models the two pieces of business logic of a small car-insurance
web service:

- the **record service** (`CarService`): listing cars with their owners,
  checking whether a car is insured on a given day, registering a claim, and
  assembling a car's policy and claim history;
- the **expiration poller** (`PolicyExpirationService`): a background loop
  that, once per cycle, finds the policies whose end date is "one hour ago"
  (date only), logs a warning for each one it has not logged before, and
  remembers its id in an in-memory seen set.

The database is replaced by an immutable in-memory `Store` (sequences of
owners, cars, policies and claims). Every operation is a pure function of a
store snapshot. Registration returns the next store together with its answer.
A poller cycle maps a seen set, a threshold day and a snapshot to a new seen
set and the log lines it emitted.

Modules, one per concept:

| file | module | contents |
|---|---|---|
| `wrappers.dfy` | `Wrappers` | `Option`, for nullable fields |
| `seqs.dfy` | `Seqs` | `Find`, `Any`, `Filter`, `MapSeq`: the query operators the services use, and a lemma that projection preserves permutations |
| `sorting.dfy` | `Sorting` | a stable sort by integer key (`OrderBy`), and a proof that sorting sorted input is the identity |
| `models.dfy` | `Models` | entities, `Store`, the schema guarantees `Valid`, car and owner lookup, claim-id assignment |
| `dtos.dfy` | `Dtos` | the response and request records |
| `car_service.dfy` | `CarService` | the record service and its properties |
| `policy_expiration.dfy` | `PolicyExpiration` | one poller cycle, runs of cycles, and the deduplication properties |

Modelling choices:

- A `DateOnly` is a day number (`Date = int`), so "earlier" is `<`.
- A `decimal` amount is an `Amount = real` that is only stored and rendered.
- Culture-dependent rendering of dates and currency is a `Culture` record of
  two uninterpreted functions passed in by the caller. Only the surrounding
  text templates are fixed.
- `KeyNotFoundException` is the `KeyNotFound(carId)` case of `Result`.
- A storage failure during a poller cycle is a snapshot of `None`.
- Entity Framework's `Include` on a required navigation is an inner join. So
  a car without its owner (or a policy without its car) yields no row.
  `Valid` states what the database schema guarantees: unique primary keys and
  foreign keys that name existing rows. Under it, the lemmas show that no row
  is lost.
- The id the database assigns to a new claim is modelled as one more than the
  largest existing claim id, or 1 for an empty table.
- The database's `ORDER BY` leaves the order of equal dates unspecified. The
  model sorts stably, so ties keep store order. Only sortedness and
  permutation are claimed.
- The entity classes under `Models/` are not part of this model. Their fields
  are inferred from their use in the two services and in `Dtos/Dtos.cs`.

## Model

| member | source | states |
|---|---|---|
| `CarService.ListCars` | Services/CarService.cs:12-18 | every row describes a car of the store joined to an owner with that car's owner id; when every car has its owner, there is exactly one row per car, in store order, carrying the car's id, VIN, make, model, year and owner id and that owner's name and email |
| `CarService.IsInsuranceValid` | Services/CarService.cs:20-30 | fails with NotFound for the given id exactly when no car has that id; otherwise it is true exactly when some policy of that car has start date <= date <= end date, both bounds included |
| `CarService.ValidityIgnoresOtherCars` | Services/CarService.cs:25-29 | removing every policy of other cars from the store leaves the validity answer unchanged |
| `CarService.ValidityExample` | Services/CarService.cs:20-30 | a policy from 2023-01-01 to 2023-12-31 makes the car insured on 2023-06-15 and on both bound days, but not on 2024-01-01; an unknown car id gives NotFound |
| `CarService.RegisterClaim` | Services/CarService.cs:32-47 | fails with NotFound exactly when the car is absent, and then the store is unchanged; otherwise it appends exactly one claim with the given car id, date, description and amount unchecked, leaves owners, cars, policies and earlier claims unchanged, and returns the new claim's id, which is at least 1 and differs from every earlier claim id |
| `CarService.RegisterPreservesValid` | Services/CarService.cs:37-46 | registration keeps the schema guarantees: claim ids stay unique and every claim names an existing car |
| `CarService.RegisteredClaimInHistory` | Services/CarService.cs:37-74 | after a successful registration, the car's history succeeds and lists the new claim, dated as given and described with its description and rendered amount |
| `CarService.GetCarHistory` | Services/CarService.cs:49-82 | fails with NotFound exactly when the car is absent; otherwise it returns the car's id and VIN, a policy list that is a permutation of the entries of exactly that car's policies and is non-decreasing in start date, and a claim list that is a permutation of the entries of exactly that car's claims and is non-decreasing in claim date |
| `CarService.HistoryResortIsNoOp` | Services/CarService.cs:55-80 | the second ordering of the assembled lists moves nothing: each history list is the date-ordered records rendered one by one |
| `CarService.PolicyEntry` | Services/CarService.cs:58-63 | a policy entry keeps the start and end dates; its provider is the policy's provider, or "Unknown Provider" when unset; its description is "Insurance policy with {that same provider} (valid until {rendered end date})" |
| `CarService.ClaimEntryExample` | Services/CarService.cs:70-73 | a claim for "Bumper damage" of 450.00 dated 2024-03-01, with the amount rendered as "$450.00", keeps its date and reads exactly "Insurance claim: Bumper damage (Amount: $450.00)" |
| `CarService.PolicyEntryExample` | Services/CarService.cs:58-63 | a policy with no provider from 2023-01-01 to 2023-12-31, with the end date rendered as "2023-12-31", has provider "Unknown Provider", keeps both dates, and reads exactly "Insurance policy with Unknown Provider (valid until 2023-12-31)" |
| `CarService.CarPolicies` | Services/CarService.cs:55-56 | holds each policy of the given car exactly as often as the store does, and no policy of another car |
| `CarService.CarClaims` | Services/CarService.cs:67-68 | holds each claim of the given car exactly as often as the store does, and no claim of another car |
| `Models.FindCar` | Services/CarService.cs:51-52 | finds nothing exactly when no car has the id; a found car is in the store and has that id |
| `Models.NextClaimId` | Services/CarService.cs:44-46 | the id assigned on insertion is at least 1 and larger than every existing claim id |
| `Sorting.SortBy` | Services/CarService.cs:57 | the result is a permutation of the input and is non-decreasing in the key |
| `Sorting.SortBySorted` | Services/CarService.cs:79-80 | ordering an already ordered list returns it unchanged |
| `PolicyExpiration.DuePolicies` | Services/PolicyExpirationService.cs:36-39 | every row is a store policy ending on the threshold day and not yet seen, joined to its own car |
| `PolicyExpiration.DuePoliciesComplete` | Services/PolicyExpirationService.cs:36-39 | every policy ending on the threshold day, not yet seen and with an existing car, yields a row |
| `PolicyExpiration.DuePoliciesUnique` | Services/PolicyExpirationService.cs:36-39 | with unique policy ids in the store, the query returns each policy id at most once |
| `PolicyExpiration.LogAndMark` | Services/PolicyExpirationService.cs:41-50 | one warning per queried policy, in query order, carrying its id, its car's VIN and its end date; the new seen set is the old one plus exactly the queried ids |
| `PolicyExpiration.Scan` | Services/PolicyExpirationService.cs:28-50 | the seen set only grows; every warning is about a policy of the store that was due against the old seen set; every due policy with a car is logged and remembered; every newly remembered id was logged |
| `PolicyExpiration.ScanSelectsExactlyDue` | Services/PolicyExpirationService.cs:36-49 | when every policy has its car, the new seen set is the old one plus exactly the ids of the policies ending on the threshold day that were not seen |
| `PolicyExpiration.Cycle` | Services/PolicyExpirationService.cs:26-69 | the seen set only grows; a failed query leaves it unchanged and logs one error line; a successful one performs the scan |
| `PolicyExpiration.CycleIdempotent` | Services/PolicyExpirationService.cs:36-49 | repeating a successful cycle with the same threshold and store logs nothing and adds no id |
| `PolicyExpiration.CycleLogsFresh` | Services/PolicyExpirationService.cs:36-49 | with unique policy ids, a cycle warns about each id at most once, never about an id seen before, and remembers every id it warned about |
| `PolicyExpiration.Run` | Services/PolicyExpirationService.cs:24-72 | over consecutive cycles the seen set never loses an id |
| `PolicyExpiration.RunLogsEachIdOnce` | Services/PolicyExpirationService.cs:11-72 | over any run of cycles whose stores have unique policy ids, each policy id is warned about at most once, never one seen before the run, and every warned id is in the final seen set |
| `PolicyExpiration.FailedCycleIsSkipped` | Services/PolicyExpirationService.cs:66-71 | a cycle whose query fails contributes one error line and the loop carries on with the seen set as it was |

## Left out

- Entity Framework Core, `AppDbContext`, the dependency-injection scope factory and `async`/`Task` plumbing are persistence and infrastructure. They are replaced by the in-memory `Store`.
- Storage failures inside the record service are not modelled. They propagate to the caller unhandled, and no model state depends on them.
- The wall clock (`DateTime.UtcNow.AddHours(-1)` truncated to a date) is not modelled. The threshold day is an input of each cycle.
- `Task.Delay`, the 59-minute interval, the cancellation token and the endless loop are scheduling. The model covers single cycles and finite runs of cycles.
- `ILogger` sinks are not modelled. Log output is the returned sequence of `LogLine`s. A logger that throws part-way through a cycle is not modelled.
- Culture-dependent rendering of `{p.EndDate}` and `{c.Amount:C}` is not interpreted. It is the caller-supplied `Culture`.
- `decimal` amounts carry no arithmetic. They are passed through unchanged.
- Concurrency between request handling and the poller is not modelled. Each operation sees one store snapshot.
- `InsuranceValidityResponse` is only a shape. It is filled in by the HTTP layer, which is not part of this model.
- Models.NextClaimId: the database's own identity generator is abstracted as "largest id plus one". 64-bit overflow of `long` ids is not modelled.
- CarService.GetCarHistory: among equal dates the order is left unstated, because the database query does not fix it either.
- CarService.ListCars: when some car's owner is missing, the contract only says that every row describes a store car. The schema rules this case out.
