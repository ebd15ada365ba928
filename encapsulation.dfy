/*
 * A car whose mileage is private: it can be read and increased, never
 * decreased. The car's other attributes are fixed at construction; its
 * random identifier is passed in.
 */
module Encapsulation {

  /** Mileage after an increase: a negative increase is refused and changes nothing. */
  function KmAdded(km: int, delta: int): int
  {
    if delta >= 0 then km + delta else km
  }

  /** Mileage after a series of increases, applied in order. */
  function KmAfter(km: int, deltas: seq<int>): int
    decreases |deltas|
  {
    if deltas == [] then km else KmAfter(KmAdded(km, deltas[0]), deltas[1..])
  }

  /** The sum of the non-negative entries. */
  function AcceptedTotal(deltas: seq<int>): (total: nat)
    decreases |deltas|
  {
    if deltas == [] then 0
    else (if deltas[0] >= 0 then deltas[0] else 0) + AcceptedTotal(deltas[1..])
  }

  /** One increase adds exactly a non-negative amount and refuses a negative one. */
  lemma KmAddedExactly(km: int, delta: int)
    ensures delta >= 0 ==> KmAdded(km, delta) == km + delta
    ensures delta < 0 ==> KmAdded(km, delta) == km
    ensures KmAdded(km, delta) >= km
  {
  }

  /** Any series of increases adds exactly the sum of the accepted ones, so mileage never goes down. */
  lemma {:induction false} KmAfterAddsAccepted(km: int, deltas: seq<int>)
    ensures KmAfter(km, deltas) == km + AcceptedTotal(deltas)
    ensures KmAfter(km, deltas) >= km
    decreases |deltas|
  {
    if deltas != [] {
      KmAfterAddsAccepted(KmAdded(km, deltas[0]), deltas[1..]);
    }
  }

  /** Reading after more increases never shows less: mileage is monotone along the series. */
  lemma {:induction false} KmAfterPrefixMonotone(km: int, deltas: seq<int>, n: nat)
    requires n <= |deltas|
    ensures KmAfter(km, deltas[..n]) <= KmAfter(km, deltas)
  {
    KmAfterAddsAccepted(km, deltas[..n]);
    KmAfterAddsAccepted(km, deltas);
    AcceptedTotalSplit(deltas, n);
  }

  lemma {:induction false} AcceptedTotalSplit(deltas: seq<int>, n: nat)
    requires n <= |deltas|
    ensures AcceptedTotal(deltas) == AcceptedTotal(deltas[..n]) + AcceptedTotal(deltas[n..])
    decreases n
  {
    if n > 0 {
      assert deltas[..n][1..] == deltas[1..][..n - 1];
      assert deltas[n..] == deltas[1..][n - 1..];
      AcceptedTotalSplit(deltas[1..], n - 1);
    }
  }

  class Avto {
    const make: string
    const model: string
    const colour: string
    const year: int
    const price: int
    const id: int
    var km: int

    constructor (make: string, model: string, colour: string, year: int, price: int, id: int, km: int := 0)
      ensures this.make == make && this.model == model && this.colour == colour
      ensures this.year == year && this.price == price && this.id == id
      ensures this.km == km
    {
      this.make := make;
      this.model := model;
      this.colour := colour;
      this.year := year;
      this.price := price;
      this.id := id;
      this.km := km;
    }

    /** The current mileage. */
    function GetKm(): (current: int)
      reads this
      ensures current == km
    {
      km
    }

    /** The identifier given at construction. */
    function GetId(): (identifier: int)
      ensures identifier == id
    {
      id
    }

    /** Adds a non-negative distance to the mileage; a negative one is refused. */
    method AddKm(delta: int)
      modifies this`km
      ensures km == KmAdded(old(km), delta)
      ensures km >= old(km)
    {
      if delta >= 0 {
        km := km + delta;
      }
    }
  }

  /** The demonstration: a car bought with 10000 km that is driven 30000 more. */
  method OdometerDemo(id: int) returns (km: int)
    ensures km == 40000
  {
    var car := new Avto("GM", "Malibu", "qora", 2020, 20000, id, 10000);
    car.AddKm(30000);
    km := car.GetKm();
  }
}
