/** The work-experience form: an ordered list of experience records, each of six text
    fields, with a button that appends a blank entry, inputs that edit one
    field of one entry (`data.map` with an index test) and a button that
    deletes an entry (`data.filter` with an index test). */
module ExperienceForm {
  import SeqEdit

  datatype Experience = Experience(
    company: string,
    position: string,
    location: string,
    startDate: string,
    endDate: string,
    description: string)

  /** `keyof Experience`. */
  datatype Field = Company | Position | Location | StartDate | EndDate | Description

  /** `entry[field]`. */
  function Get(e: Experience, f: Field): string {
    match f
    case Company => e.company
    case Position => e.position
    case Location => e.location
    case StartDate => e.startDate
    case EndDate => e.endDate
    case Description => e.description
  }

  /** `{ ...entry, [field]: value }`: `value` in `field`, every other field
      as it was. */
  function SetField(e: Experience, f: Field, v: string): (r: Experience)
    ensures Get(r, f) == v
    ensures forall g :: g != f ==> Get(r, g) == Get(e, g)
  {
    match f
    case Company => e.(company := v)
    case Position => e.(position := v)
    case Location => e.(location := v)
    case StartDate => e.(startDate := v)
    case EndDate => e.(endDate := v)
    case Description => e.(description := v)
  }

  /** The entry the add button appends. */
  const Blank: Experience := Experience("", "", "", "", "", "")

  /** `addExperience`: one more entry, every field empty, after the existing entries
      in their order. */
  function AddExperience(data: seq<Experience>): (r: seq<Experience>)
    ensures |r| == |data| + 1
    ensures r[..|data|] == data
    ensures forall f :: Get(r[|data|], f) == ""
  {
    SeqEdit.Append(data, Blank)
  }

  /** `updateExperience(index, field, value)`: the same number of entries; entry
      `index` holds `value` in `field` and keeps its other fields; every other
      entry is untouched; an index outside the list changes nothing. */
  function UpdateExperience(data: seq<Experience>, index: int, f: Field, v: string): (r: seq<Experience>)
    ensures |r| == |data|
    ensures forall j :: 0 <= j < |data| && j != index ==> r[j] == data[j]
    ensures 0 <= index < |data| ==>
      && Get(r[index], f) == v
      && forall g :: g != f ==> Get(r[index], g) == Get(data[index], g)
    ensures !(0 <= index < |data|) ==> r == data
  {
    SeqEdit.MapAt(data, index, e => SetField(e, f, v))
  }

  /** `removeExperience(index)`: entry `index` is gone and the others close up in
      order; an index outside the list changes nothing. */
  function RemoveExperience(data: seq<Experience>, index: int): (r: seq<Experience>)
    ensures 0 <= index < |data| ==> |r| == |data| - 1 && r == data[..index] + data[index + 1..]
    ensures !(0 <= index < |data|) ==> r == data
  {
    SeqEdit.RemoveAt(data, index)
  }

  /** Deleting the entry just added restores the list. */
  lemma AddThenRemoveLast(data: seq<Experience>)
    ensures RemoveExperience(AddExperience(data), |data|) == data
  {
    SeqEdit.RemoveAppended(data, Blank);
  }

  /** Two entries that agree on every field are the same entry. */
  lemma Extensionality(a: Experience, b: Experience)
    requires forall f :: Get(a, f) == Get(b, f)
    ensures a == b
  {
    assert Get(a, Company) == Get(b, Company);
    assert Get(a, Position) == Get(b, Position);
    assert Get(a, Location) == Get(b, Location);
    assert Get(a, StartDate) == Get(b, StartDate);
    assert Get(a, EndDate) == Get(b, EndDate);
    assert Get(a, Description) == Get(b, Description);
  }

  /** Of two edits to the same field of the same entry only the last
      survives. */
  lemma LastWriteWins(data: seq<Experience>, index: int, f: Field, v: string, w: string)
    ensures UpdateExperience(UpdateExperience(data, index, f, v), index, f, w) == UpdateExperience(data, index, f, w)
  {
    var twice := UpdateExperience(UpdateExperience(data, index, f, v), index, f, w);
    var once := UpdateExperience(data, index, f, w);
    if 0 <= index < |data| {
      Extensionality(twice[index], once[index]);
      assert forall j :: 0 <= j < |data| ==> twice[j] == once[j];
    }
  }

  /** Writing back a field's current value changes nothing. */
  lemma UpdateWithCurrent(data: seq<Experience>, index: int, f: Field)
    requires 0 <= index < |data|
    ensures UpdateExperience(data, index, f, Get(data[index], f)) == data
  {
    var r := UpdateExperience(data, index, f, Get(data[index], f));
    Extensionality(r[index], data[index]);
    assert forall j :: 0 <= j < |data| ==> r[j] == data[j];
  }
}
