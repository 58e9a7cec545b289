/**
 * The entity of the tracking system: one wild animal with seven fields.
 * `AnimalRow` is the value of a record (one row of the WildAnimals table);
 * `WildAnimal` is the mutable Java object, whose setters change one field in place.
 */
module Animal {

  /** The seven columns of one record, in table order. Java's `double` weight is modelled as `real`. */
  datatype AnimalRow = AnimalRow(
    id: int,
    species: string,
    name: string,
    age: int,
    gender: string,
    weight: real,
    healthStatus: string)

  class WildAnimal {
    /** The tag id: set by the constructor only, since the class has no mutator for it. */
    const id: int
    var species: string
    var name: string
    var age: int
    var gender: string
    var weight: real
    var healthStatus: string

    /** The record this object currently holds. */
    function Row(): AnimalRow
      reads this
    {
      AnimalRow(id, species, name, age, gender, weight, healthStatus)
    }

    /** Stores every argument verbatim: no trimming, no range check (a negative age or weight is kept). */
    constructor (id: int, species: string, name: string, age: int, gender: string, weight: real, healthStatus: string)
      ensures GetId() == id && GetSpecies() == species && GetName() == name && GetAge() == age
      ensures GetGender() == gender && GetWeight() == weight && GetHealthStatus() == healthStatus
      ensures Row() == AnimalRow(id, species, name, age, gender, weight, healthStatus)
    {
      this.id := id;
      this.species := species;
      this.name := name;
      this.age := age;
      this.gender := gender;
      this.weight := weight;
      this.healthStatus := healthStatus;
    }

    function GetId(): int reads this { id }
    function GetSpecies(): string reads this { species }
    function GetName(): string reads this { name }
    function GetAge(): int reads this { age }
    function GetGender(): string reads this { gender }
    function GetWeight(): real reads this { weight }
    function GetHealthStatus(): string reads this { healthStatus }

    // One setter per field except `id`: each may write only its own field, so the
    // other six getters keep their values, and setting the current value changes nothing.

    method SetSpecies(species: string)
      modifies this`species
      ensures Row() == old(Row()).(species := species)
      ensures old(GetSpecies()) == species ==> Row() == old(Row())
    {
      this.species := species;
    }

    method SetName(name: string)
      modifies this`name
      ensures Row() == old(Row()).(name := name)
      ensures old(GetName()) == name ==> Row() == old(Row())
    {
      this.name := name;
    }

    method SetAge(age: int)
      modifies this`age
      ensures Row() == old(Row()).(age := age)
      ensures old(GetAge()) == age ==> Row() == old(Row())
    {
      this.age := age;
    }

    method SetGender(gender: string)
      modifies this`gender
      ensures Row() == old(Row()).(gender := gender)
      ensures old(GetGender()) == gender ==> Row() == old(Row())
    {
      this.gender := gender;
    }

    method SetWeight(weight: real)
      modifies this`weight
      ensures Row() == old(Row()).(weight := weight)
      ensures old(GetWeight()) == weight ==> Row() == old(Row())
    {
      this.weight := weight;
    }

    method SetHealthStatus(healthStatus: string)
      modifies this`healthStatus
      ensures Row() == old(Row()).(healthStatus := healthStatus)
      ensures old(GetHealthStatus()) == healthStatus ==> Row() == old(Row())
    {
      this.healthStatus := healthStatus;
    }
  }

  /**
   * A client of the class: whatever sequence of setter calls is made, the tag id
   * stays the one given at construction, and a negative age and weight are accepted.
   */
  method SettersNeverChangeId(id: int, s: string, n: string, g: string, h: string)
    returns (a: WildAnimal)
    ensures a.GetId() == id && a.GetAge() == -1 && a.GetWeight() == -1.0
  {
    a := new WildAnimal(id, "", "", -1, "", -1.0, "");
    a.SetSpecies(s);
    a.SetName(n);
    a.SetGender(g);
    a.SetHealthStatus(h);
    a.SetAge(-1);
    a.SetWeight(-1.0);
  }
}
