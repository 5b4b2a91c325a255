/** The persisted entities and an in-memory store standing in for the database. */
module Models {
  import opened Wrappers
  import Seqs

  /** A calendar date without time of day (`DateOnly`), as a day number:
      a later day has a larger number. */
  type Date = int

  /** A currency amount (`decimal`). The services never compute with it;
      they store it and render it. */
  type Amount = real

  datatype Owner = Owner(id: int, name: string, email: Option<string>)

  datatype Car = Car(
    id: int,
    vin: string,
    make: Option<string>,
    model: Option<string>,
    yearOfManufacture: int,
    ownerId: int)

  /** An insurance policy covering a car from `startDate` to `endDate`, both included. */
  datatype Policy = Policy(
    id: int,
    carId: int,
    provider: Option<string>,
    startDate: Date,
    endDate: Date)

  datatype InsuranceClaim = InsuranceClaim(
    id: int,
    carId: int,
    claimDate: Date,
    description: string,
    amount: Amount)

  /** One snapshot of the four tables the services read and write. */
  datatype Store = Store(
    owners: seq<Owner>,
    cars: seq<Car>,
    policies: seq<Policy>,
    claims: seq<InsuranceClaim>)

  /** The guarantees the database schema gives: primary keys are unique and
      every foreign key names an existing row. The services never check them. */
  ghost predicate Valid(s: Store)
  {
    && (forall i, j :: 0 <= i < j < |s.owners| ==> s.owners[i].id != s.owners[j].id)
    && (forall i, j :: 0 <= i < j < |s.cars| ==> s.cars[i].id != s.cars[j].id)
    && UniquePolicyIds(s.policies)
    && (forall i, j :: 0 <= i < j < |s.claims| ==> s.claims[i].id != s.claims[j].id)
    && CarsHaveOwners(s)
    && PoliciesHaveCars(s)
    && (forall c :: c in s.claims ==> HasCar(s, c.carId))
  }

  /** No two policies in `ps` share an id (the primary key). */
  ghost predicate UniquePolicyIds(ps: seq<Policy>)
  {
    forall i, j :: 0 <= i < j < |ps| ==> ps[i].id != ps[j].id
  }

  ghost predicate CarsHaveOwners(s: Store)
  {
    forall c :: c in s.cars ==> HasOwner(s, c.ownerId)
  }

  ghost predicate PoliciesHaveCars(s: Store)
  {
    forall p :: p in s.policies ==> HasCar(s, p.carId)
  }

  ghost predicate HasOwner(s: Store, ownerId: int)
  {
    exists o :: o in s.owners && o.id == ownerId
  }

  ghost predicate HasCar(s: Store, carId: int)
  {
    exists c :: c in s.cars && c.id == carId
  }

  /** The car with id `carId`, if the store has one. */
  function FindCar(s: Store, carId: int): (r: Option<Car>)
    ensures r.None? <==> !HasCar(s, carId)
    ensures r.Some? ==> r.value in s.cars && r.value.id == carId
  {
    var r := Seqs.Find(s.cars, (c: Car) => c.id == carId);
    assert r.None? ==> forall c :: c in s.cars ==> c.id != carId;
    r
  }

  /** The owner with id `ownerId`, if the store has one. */
  function FindOwner(s: Store, ownerId: int): (r: Option<Owner>)
    ensures r.None? <==> !HasOwner(s, ownerId)
    ensures r.Some? ==> r.value in s.owners && r.value.id == ownerId
  {
    var r := Seqs.Find(s.owners, (o: Owner) => o.id == ownerId);
    assert r.None? ==> forall o :: o in s.owners ==> o.id != ownerId;
    r
  }

  /** The id the database assigns to the next inserted claim: larger than
      every id already used, and at least 1. */
  function NextClaimId(claims: seq<InsuranceClaim>): (r: int)
    ensures r >= 1
    ensures forall i :: 0 <= i < |claims| ==> claims[i].id < r
  {
    if |claims| == 0 then 1
    else
      var rest := NextClaimId(claims[1..]);
      if claims[0].id + 1 > rest then claims[0].id + 1 else rest
  }
}
