/** The record service: car listing, the insurance-validity check, claim
    registration and history assembly, each a function of a store snapshot. */
module CarService {
  import opened Wrappers
  import opened Seqs
  import opened Sorting
  import opened Models
  import opened Dtos

  /** An answer, or the `KeyNotFoundException` raised for an unknown car. */
  datatype Result<+T> = Success(value: T) | KeyNotFound(carId: int)

  /** The store after an operation together with the operation's answer. */
  datatype Transition<+T> = Transition(store: Store, result: Result<T>)

  /** Culture-dependent rendering, which the model does not interpret. */
  datatype Culture = Culture(formatDate: Date -> string, formatCurrency: Amount -> string)

  const UnknownProvider: string := "Unknown Provider"

  // ---------------------------------------------------------------- listing

  /** `d` is the summary of car `c`, joined to an owner carrying the car's owner id. */
  ghost predicate DescribesCar(d: CarDto, c: Car, s: Store)
  {
    && d.id == c.id && d.vin == c.vin && d.make == c.make && d.model == c.model
    && d.year == c.yearOfManufacture && d.ownerId == c.ownerId
    && exists o :: o in s.owners && o.id == c.ownerId && d.ownerName == o.name && d.ownerEmail == o.email
  }

  /** The summaries of `cars`, each joined to its owner (an inner join: a car
      whose owner is missing yields no row). */
  function Summaries(cars: seq<Car>, s: Store): (r: seq<CarDto>)
    ensures |r| <= |cars|
    ensures forall d :: d in r ==> exists c :: c in cars && DescribesCar(d, c, s)
    ensures (forall i :: 0 <= i < |cars| ==> HasOwner(s, cars[i].ownerId)) ==>
              |r| == |cars| && forall i :: 0 <= i < |r| ==> DescribesCar(r[i], cars[i], s)
  {
    if |cars| == 0 then []
    else
      var c := cars[0];
      var rest := Summaries(cars[1..], s);
      match FindOwner(s, c.ownerId)
      case None => rest
      case Some(o) =>
        var d := CarDto(c.id, c.vin, c.make, c.model, c.yearOfManufacture, c.ownerId, o.name, o.email);
        assert DescribesCar(d, c, s);
        [d] + rest
  }

  /** All cars with their owners (`ListCarsAsync`). */
  function ListCars(s: Store): (r: seq<CarDto>)
    ensures forall d :: d in r ==> exists c :: c in s.cars && DescribesCar(d, c, s)
    ensures CarsHaveOwners(s) ==>
              |r| == |s.cars| && forall i :: 0 <= i < |r| ==> DescribesCar(r[i], s.cars[i], s)
  {
    Summaries(s.cars, s)
  }

  // --------------------------------------------------------------- validity

  /** `p` covers `date`, both bounds included. */
  predicate Covers(p: Policy, date: Date)
  {
    p.startDate <= date && p.endDate >= date
  }

  /** Whether car `carId` is insured on `date` (`IsInsuranceValidAsync`). */
  function IsInsuranceValid(s: Store, carId: int, date: Date): (r: Result<bool>)
    ensures r.KeyNotFound? <==> !HasCar(s, carId)
    ensures r.KeyNotFound? ==> r.carId == carId
    ensures r.Success? ==>
              (r.value <==> exists p :: p in s.policies && p.carId == carId && p.startDate <= date <= p.endDate)
  {
    if !Any(s.cars, (c: Car) => c.id == carId) then
      assert forall c :: c in s.cars ==> c.id != carId;
      KeyNotFound(carId)
    else
      var valid := Any(s.policies, (p: Policy) => p.carId == carId && Covers(p, date));
      Success(valid)
  }

  // ------------------------------------------------------ claim registration

  /** Records claim `dto` against car `carId` and answers the new claim's id
      (`RegisterClaimAsync`). Amount, date and description are not checked. */
  function RegisterClaim(s: Store, carId: int, dto: ClaimDto): (r: Transition<int>)
    ensures r.result.KeyNotFound? <==> !HasCar(s, carId)
    ensures r.result.KeyNotFound? ==> r.result.carId == carId && r.store == s
    ensures r.result.Success? ==>
              var id := r.result.value;
              && r.store.owners == s.owners
              && r.store.cars == s.cars
              && r.store.policies == s.policies
              && r.store.claims == s.claims + [InsuranceClaim(id, carId, dto.claimDate, dto.description, dto.amount)]
              && id >= 1
              && forall c :: c in s.claims ==> c.id != id
  {
    match FindCar(s, carId)
    case None => Transition(s, KeyNotFound(carId))
    case Some(_) =>
      var id := NextClaimId(s.claims);
      var claim := InsuranceClaim(id, carId, dto.claimDate, dto.description, dto.amount);
      Transition(s.(claims := s.claims + [claim]), Success(id))
  }

  // ---------------------------------------------------------------- history

  function StartKey(p: Policy): int { p.startDate }
  function ClaimDateKey(c: InsuranceClaim): int { c.claimDate }
  function EntryStartKey(e: CarHistoryPolicyDto): int { e.startDate }
  function EntryDateKey(e: CarHistoryClaimDto): int { e.claimDate }

  /** The policies of car `carId`, in store order. */
  function CarPolicies(s: Store, carId: int): (r: seq<Policy>)
    ensures forall p :: multiset(r)[p] == if p.carId == carId then multiset(s.policies)[p] else 0
  {
    Filter(s.policies, (p: Policy) => p.carId == carId)
  }

  /** The claims of car `carId`, in store order. */
  function CarClaims(s: Store, carId: int): (r: seq<InsuranceClaim>)
    ensures forall c :: multiset(r)[c] == if c.carId == carId then multiset(s.claims)[c] else 0
  {
    Filter(s.claims, (c: InsuranceClaim) => c.carId == carId)
  }

  /** The history line of one policy; an unset provider reads "Unknown Provider". */
  function PolicyEntry(p: Policy, culture: Culture): (r: CarHistoryPolicyDto)
    ensures r.startDate == p.startDate && r.endDate == p.endDate
    ensures p.provider.Some? ==> r.policyProvider == p.provider.value
    ensures p.provider.None? ==> r.policyProvider == UnknownProvider
    ensures r.description ==
              "Insurance policy with " + r.policyProvider + " (valid until " + culture.formatDate(p.endDate) + ")"
  {
    var provider := p.provider.GetOr(UnknownProvider);
    CarHistoryPolicyDto(
      provider,
      p.startDate,
      p.endDate,
      "Insurance policy with " + provider + " (valid until " + culture.formatDate(p.endDate) + ")")
  }

  /** The history line of one claim. */
  function ClaimEntry(c: InsuranceClaim, culture: Culture): (r: CarHistoryClaimDto)
    ensures r.claimDate == c.claimDate
    ensures r.description ==
              "Insurance claim: " + c.description + " (Amount: " + culture.formatCurrency(c.amount) + ")"
  {
    CarHistoryClaimDto(
      c.claimDate,
      "Insurance claim: " + c.description + " (Amount: " + culture.formatCurrency(c.amount) + ")")
  }

  function PolicyEntries(ps: seq<Policy>, culture: Culture): (r: seq<CarHistoryPolicyDto>)
    ensures |r| == |ps|
    ensures forall i :: 0 <= i < |ps| ==> r[i] == PolicyEntry(ps[i], culture)
  {
    MapSeq(ps, (p: Policy) => PolicyEntry(p, culture))
  }

  function ClaimEntries(cs: seq<InsuranceClaim>, culture: Culture): (r: seq<CarHistoryClaimDto>)
    ensures |r| == |cs|
    ensures forall i :: 0 <= i < |cs| ==> r[i] == ClaimEntry(cs[i], culture)
  {
    MapSeq(cs, (c: InsuranceClaim) => ClaimEntry(c, culture))
  }

  /** The policy and claim history of car `carId` (`GetCarHistoryAsync`): the
      query orders by date, and the assembled lists are ordered by date once more. */
  function GetCarHistory(s: Store, carId: int, culture: Culture): (r: Result<CarHistoryResponse>)
    ensures r.KeyNotFound? <==> !HasCar(s, carId)
    ensures r.KeyNotFound? ==> r.carId == carId
    ensures r.Success? ==>
              && r.value.carId == carId
              && (exists c :: c in s.cars && c.id == carId && r.value.vin == c.vin)
              && SortedBy(r.value.policies, EntryStartKey)
              && multiset(r.value.policies) == multiset(PolicyEntries(CarPolicies(s, carId), culture))
              && SortedBy(r.value.claims, EntryDateKey)
              && multiset(r.value.claims) == multiset(ClaimEntries(CarClaims(s, carId), culture))
  {
    match FindCar(s, carId)
    case None => KeyNotFound(carId)
    case Some(car) =>
      var ordered := SortBy(CarPolicies(s, carId), StartKey);
      var policies := SortBy(PolicyEntries(ordered, culture), EntryStartKey);
      var claimsOrdered := SortBy(CarClaims(s, carId), ClaimDateKey);
      var claims := SortBy(ClaimEntries(claimsOrdered, culture), EntryDateKey);
      MapSeqPermutation(ordered, CarPolicies(s, carId), (p: Policy) => PolicyEntry(p, culture));
      MapSeqPermutation(claimsOrdered, CarClaims(s, carId), (c: InsuranceClaim) => ClaimEntry(c, culture));
      Success(CarHistoryResponse(car.id, car.vin, policies, claims))
  }

  // ------------------------------------------------------------- properties

  /** Only the car's own policies decide validity: dropping every policy of
      another car leaves the answer as it was. */
  lemma ValidityIgnoresOtherCars(s: Store, carId: int, date: Date)
    ensures IsInsuranceValid(s, carId, date) == IsInsuranceValid(s.(policies := CarPolicies(s, carId)), carId, date)
  {
  }

  /** A registered claim's id stays unique and its car exists, so a store
      satisfying the schema still does after the registration. */
  lemma RegisterPreservesValid(s: Store, carId: int, dto: ClaimDto)
    requires Valid(s)
    ensures Valid(RegisterClaim(s, carId, dto).store)
  {
  }

  /** After a successful registration the car's history lists the new claim. */
  lemma RegisteredClaimInHistory(s: Store, carId: int, dto: ClaimDto, culture: Culture)
    requires RegisterClaim(s, carId, dto).result.Success?
    ensures var r := RegisterClaim(s, carId, dto);
            var h := GetCarHistory(r.store, carId, culture);
            && h.Success?
            && CarHistoryClaimDto(dto.claimDate,
                 "Insurance claim: " + dto.description + " (Amount: " + culture.formatCurrency(dto.amount) + ")")
               in h.value.claims
  {
    var r := RegisterClaim(s, carId, dto);
    var claim := InsuranceClaim(r.result.value, carId, dto.claimDate, dto.description, dto.amount);
    var own := CarClaims(r.store, carId);
    assert r.store.claims[|s.claims|] == claim;
    assert multiset(own)[claim] > 0;
    var k :| 0 <= k < |own| && own[k] == claim;
    var entries := ClaimEntries(own, culture);
    assert entries[k] == ClaimEntry(claim, culture);
    var h := GetCarHistory(r.store, carId, culture);
    assert multiset(entries)[ClaimEntry(claim, culture)] > 0;
    assert multiset(h.value.claims)[ClaimEntry(claim, culture)] > 0;
  }

  /** The query already orders by date, so the second ordering of the assembled
      lists moves nothing: the history is the date-ordered records rendered in turn. */
  lemma HistoryResortIsNoOp(s: Store, carId: int, culture: Culture)
    requires HasCar(s, carId)
    ensures var h := GetCarHistory(s, carId, culture);
            && h.Success?
            && h.value.policies == PolicyEntries(SortBy(CarPolicies(s, carId), StartKey), culture)
            && h.value.claims == ClaimEntries(SortBy(CarClaims(s, carId), ClaimDateKey), culture)
  {
    var ordered := SortBy(CarPolicies(s, carId), StartKey);
    var entries := PolicyEntries(ordered, culture);
    assert SortedBy(entries, EntryStartKey) by {
      forall i, j | 0 <= i < j < |entries| ensures EntryStartKey(entries[i]) <= EntryStartKey(entries[j]) {
        assert StartKey(ordered[i]) <= StartKey(ordered[j]);
      }
    }
    SortBySorted(entries, EntryStartKey);
    var claimsOrdered := SortBy(CarClaims(s, carId), ClaimDateKey);
    var claimEntries := ClaimEntries(claimsOrdered, culture);
    assert SortedBy(claimEntries, EntryDateKey) by {
      forall i, j | 0 <= i < j < |claimEntries| ensures EntryDateKey(claimEntries[i]) <= EntryDateKey(claimEntries[j]) {
        assert ClaimDateKey(claimsOrdered[i]) <= ClaimDateKey(claimsOrdered[j]);
      }
    }
    SortBySorted(claimEntries, EntryDateKey);
  }

  /** Car 1 insured from 2023-01-01 to 2023-12-31 (days 19358 and 19722 after
      1970-01-01) is insured on 2023-06-15 and on both end days, and not on 2024-01-01. */
  lemma ValidityExample()
    ensures var s := Store([Owner(1, "Ana", None)], [Car(1, "VIN1", None, None, 2018, 1)],
                           [Policy(1, 1, Some("Allianz"), 19358, 19722)], []);
            && IsInsuranceValid(s, 1, 19523) == Success(true)
            && IsInsuranceValid(s, 1, 19358) == Success(true)
            && IsInsuranceValid(s, 1, 19722) == Success(true)
            && IsInsuranceValid(s, 1, 19723) == Success(false)
            && IsInsuranceValid(s, 2, 19523) == KeyNotFound(2)
  {
  }

  /** A claim of 450.00 for "Bumper damage" on 2024-03-01 (day 19783) reads
      "Insurance claim: Bumper damage (Amount: $450.00)" under a culture that
      renders that amount as "$450.00". */
  lemma ClaimEntryExample(culture: Culture)
    requires culture.formatCurrency(450.0) == "$450.00"
    ensures var e := ClaimEntry(InsuranceClaim(7, 1, 19783, "Bumper damage", 450.0), culture);
            && e.claimDate == 19783
            && e.description == "Insurance claim: Bumper damage (Amount: $450.00)"
  {
  }

  /** A policy without a provider ending 2023-12-31 (day 19722) reads as
      provider "Unknown Provider" with description
      "Insurance policy with Unknown Provider (valid until 2023-12-31)". */
  lemma PolicyEntryExample(culture: Culture)
    requires culture.formatDate(19722) == "2023-12-31"
    ensures var e := PolicyEntry(Policy(1, 1, None, 19358, 19722), culture);
            && e.policyProvider == "Unknown Provider"
            && e.startDate == 19358 && e.endDate == 19722
            && e.description == "Insurance policy with Unknown Provider (valid until 2023-12-31)"
  {
  }
}
