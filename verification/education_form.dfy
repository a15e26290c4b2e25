/** The education form: an ordered list of education records, each of six text
    fields, with a button that appends a blank entry, inputs that edit one
    field of one entry (`data.map` with an index test) and a button that
    deletes an entry (`data.filter` with an index test). */
module EducationForm {
  import SeqEdit

  datatype Education = Education(
    institution: string,
    degree: string,
    field: string,
    startDate: string,
    endDate: string,
    gpa: string)

  /** `keyof Education`. */
  datatype Field = Institution | Degree | FieldOfStudy | StartDate | EndDate | Gpa

  /** `entry[field]`. */
  function Get(e: Education, f: Field): string {
    match f
    case Institution => e.institution
    case Degree => e.degree
    case FieldOfStudy => e.field
    case StartDate => e.startDate
    case EndDate => e.endDate
    case Gpa => e.gpa
  }

  /** `{ ...entry, [field]: value }`: `value` in `field`, every other field
      as it was. */
  function SetField(e: Education, f: Field, v: string): (r: Education)
    ensures Get(r, f) == v
    ensures forall g :: g != f ==> Get(r, g) == Get(e, g)
  {
    match f
    case Institution => e.(institution := v)
    case Degree => e.(degree := v)
    case FieldOfStudy => e.(field := v)
    case StartDate => e.(startDate := v)
    case EndDate => e.(endDate := v)
    case Gpa => e.(gpa := v)
  }

  /** The entry the add button appends. */
  const Blank: Education := Education("", "", "", "", "", "")

  /** `addEducation`: one more entry, every field empty, after the existing entries
      in their order. */
  function AddEducation(data: seq<Education>): (r: seq<Education>)
    ensures |r| == |data| + 1
    ensures r[..|data|] == data
    ensures forall f :: Get(r[|data|], f) == ""
  {
    SeqEdit.Append(data, Blank)
  }

  /** `updateEducation(index, field, value)`: the same number of entries; entry
      `index` holds `value` in `field` and keeps its other fields; every other
      entry is untouched; an index outside the list changes nothing. */
  function UpdateEducation(data: seq<Education>, index: int, f: Field, v: string): (r: seq<Education>)
    ensures |r| == |data|
    ensures forall j :: 0 <= j < |data| && j != index ==> r[j] == data[j]
    ensures 0 <= index < |data| ==>
      && Get(r[index], f) == v
      && forall g :: g != f ==> Get(r[index], g) == Get(data[index], g)
    ensures !(0 <= index < |data|) ==> r == data
  {
    SeqEdit.MapAt(data, index, e => SetField(e, f, v))
  }

  /** `removeEducation(index)`: entry `index` is gone and the others close up in
      order; an index outside the list changes nothing. */
  function RemoveEducation(data: seq<Education>, index: int): (r: seq<Education>)
    ensures 0 <= index < |data| ==> |r| == |data| - 1 && r == data[..index] + data[index + 1..]
    ensures !(0 <= index < |data|) ==> r == data
  {
    SeqEdit.RemoveAt(data, index)
  }

  /** Deleting the entry just added restores the list. */
  lemma AddThenRemoveLast(data: seq<Education>)
    ensures RemoveEducation(AddEducation(data), |data|) == data
  {
    SeqEdit.RemoveAppended(data, Blank);
  }

  /** Two entries that agree on every field are the same entry. */
  lemma Extensionality(a: Education, b: Education)
    requires forall f :: Get(a, f) == Get(b, f)
    ensures a == b
  {
    assert Get(a, Institution) == Get(b, Institution);
    assert Get(a, Degree) == Get(b, Degree);
    assert Get(a, FieldOfStudy) == Get(b, FieldOfStudy);
    assert Get(a, StartDate) == Get(b, StartDate);
    assert Get(a, EndDate) == Get(b, EndDate);
    assert Get(a, Gpa) == Get(b, Gpa);
  }

  /** Of two edits to the same field of the same entry only the last
      survives. */
  lemma LastWriteWins(data: seq<Education>, index: int, f: Field, v: string, w: string)
    ensures UpdateEducation(UpdateEducation(data, index, f, v), index, f, w) == UpdateEducation(data, index, f, w)
  {
    var twice := UpdateEducation(UpdateEducation(data, index, f, v), index, f, w);
    var once := UpdateEducation(data, index, f, w);
    if 0 <= index < |data| {
      Extensionality(twice[index], once[index]);
      assert forall j :: 0 <= j < |data| ==> twice[j] == once[j];
    }
  }

  /** Writing back a field's current value changes nothing. */
  lemma UpdateWithCurrent(data: seq<Education>, index: int, f: Field)
    requires 0 <= index < |data|
    ensures UpdateEducation(data, index, f, Get(data[index], f)) == data
  {
    var r := UpdateEducation(data, index, f, Get(data[index], f));
    Extensionality(r[index], data[index]);
    assert forall j :: 0 <= j < |data| ==> r[j] == data[j];
  }
}
