/** The personal-information form: a record of seven text fields, edited one
    field at a time with an object spread (`{ ...data, [field]: value }`). */
module PersonalInfoForm {

  datatype PersonalInfo = PersonalInfo(
    fullName: string,
    email: string,
    phone: string,
    location: string,
    linkedin: string,
    portfolio: string,
    summary: string)

  /** `keyof PersonalInfo`. */
  datatype Field = FullName | Email | Phone | Location | Linkedin | Portfolio | Summary

  /** `data[field]`. */
  function Get(p: PersonalInfo, f: Field): string {
    match f
    case FullName => p.fullName
    case Email => p.email
    case Phone => p.phone
    case Location => p.location
    case Linkedin => p.linkedin
    case Portfolio => p.portfolio
    case Summary => p.summary
  }

  /** The record with every field empty. */
  const Blank: PersonalInfo := PersonalInfo("", "", "", "", "", "", "")

  /** `updateField(field, value)`: the record handed to `onChange` holds
      `value` in `field` and agrees with `p` on the six other fields. */
  function UpdateField(p: PersonalInfo, f: Field, v: string): (r: PersonalInfo)
    ensures Get(r, f) == v
    ensures forall g :: g != f ==> Get(r, g) == Get(p, g)
  {
    match f
    case FullName => p.(fullName := v)
    case Email => p.(email := v)
    case Phone => p.(phone := v)
    case Location => p.(location := v)
    case Linkedin => p.(linkedin := v)
    case Portfolio => p.(portfolio := v)
    case Summary => p.(summary := v)
  }

  /** Two records that agree on every field are the same record. */
  lemma Extensionality(p: PersonalInfo, q: PersonalInfo)
    requires forall f :: Get(p, f) == Get(q, f)
    ensures p == q
  {
    assert Get(p, FullName) == Get(q, FullName);
    assert Get(p, Email) == Get(q, Email);
    assert Get(p, Phone) == Get(q, Phone);
    assert Get(p, Location) == Get(q, Location);
    assert Get(p, Linkedin) == Get(q, Linkedin);
    assert Get(p, Portfolio) == Get(q, Portfolio);
    assert Get(p, Summary) == Get(q, Summary);
  }

  /** Of two edits to the same field only the last survives. */
  lemma LastWriteWins(p: PersonalInfo, f: Field, v: string, w: string)
    ensures UpdateField(UpdateField(p, f, v), f, w) == UpdateField(p, f, w)
  {
    Extensionality(UpdateField(UpdateField(p, f, v), f, w), UpdateField(p, f, w));
  }

  /** Writing back a field's current value changes nothing. */
  lemma UpdateWithCurrent(p: PersonalInfo, f: Field)
    ensures UpdateField(p, f, Get(p, f)) == p
  {
    Extensionality(UpdateField(p, f, Get(p, f)), p);
  }

  /** Edits to two different fields do not interfere, in either order. */
  lemma DistinctFieldsCommute(p: PersonalInfo, f: Field, v: string, g: Field, w: string)
    requires f != g
    ensures UpdateField(UpdateField(p, f, v), g, w) == UpdateField(UpdateField(p, g, w), f, v)
  {
    Extensionality(UpdateField(UpdateField(p, f, v), g, w), UpdateField(UpdateField(p, g, w), f, v));
  }
}
