/** The projects form: an ordered list of project records, each of four text
    fields, with a button that appends a blank entry, inputs that edit one
    field of one entry (`data.map` with an index test) and a button that
    deletes an entry (`data.filter` with an index test). */
module ProjectsForm {
  import SeqEdit

  datatype Project = Project(
    name: string,
    description: string,
    technologies: string,
    link: string)

  /** `keyof Project`. */
  datatype Field = Name | Description | Technologies | Link

  /** `entry[field]`. */
  function Get(e: Project, f: Field): string {
    match f
    case Name => e.name
    case Description => e.description
    case Technologies => e.technologies
    case Link => e.link
  }

  /** `{ ...entry, [field]: value }`: `value` in `field`, every other field
      as it was. */
  function SetField(e: Project, f: Field, v: string): (r: Project)
    ensures Get(r, f) == v
    ensures forall g :: g != f ==> Get(r, g) == Get(e, g)
  {
    match f
    case Name => e.(name := v)
    case Description => e.(description := v)
    case Technologies => e.(technologies := v)
    case Link => e.(link := v)
  }

  /** The entry the add button appends. */
  const Blank: Project := Project("", "", "", "")

  /** `addProject`: one more entry, every field empty, after the existing entries
      in their order. */
  function AddProject(data: seq<Project>): (r: seq<Project>)
    ensures |r| == |data| + 1
    ensures r[..|data|] == data
    ensures forall f :: Get(r[|data|], f) == ""
  {
    SeqEdit.Append(data, Blank)
  }

  /** `updateProject(index, field, value)`: the same number of entries; entry
      `index` holds `value` in `field` and keeps its other fields; every other
      entry is untouched; an index outside the list changes nothing. */
  function UpdateProject(data: seq<Project>, index: int, f: Field, v: string): (r: seq<Project>)
    ensures |r| == |data|
    ensures forall j :: 0 <= j < |data| && j != index ==> r[j] == data[j]
    ensures 0 <= index < |data| ==>
      && Get(r[index], f) == v
      && forall g :: g != f ==> Get(r[index], g) == Get(data[index], g)
    ensures !(0 <= index < |data|) ==> r == data
  {
    SeqEdit.MapAt(data, index, e => SetField(e, f, v))
  }

  /** `removeProject(index)`: entry `index` is gone and the others close up in
      order; an index outside the list changes nothing. */
  function RemoveProject(data: seq<Project>, index: int): (r: seq<Project>)
    ensures 0 <= index < |data| ==> |r| == |data| - 1 && r == data[..index] + data[index + 1..]
    ensures !(0 <= index < |data|) ==> r == data
  {
    SeqEdit.RemoveAt(data, index)
  }

  /** Deleting the entry just added restores the list. */
  lemma AddThenRemoveLast(data: seq<Project>)
    ensures RemoveProject(AddProject(data), |data|) == data
  {
    SeqEdit.RemoveAppended(data, Blank);
  }

  /** Two entries that agree on every field are the same entry. */
  lemma Extensionality(a: Project, b: Project)
    requires forall f :: Get(a, f) == Get(b, f)
    ensures a == b
  {
    assert Get(a, Name) == Get(b, Name);
    assert Get(a, Description) == Get(b, Description);
    assert Get(a, Technologies) == Get(b, Technologies);
    assert Get(a, Link) == Get(b, Link);
  }

  /** Of two edits to the same field of the same entry only the last
      survives. */
  lemma LastWriteWins(data: seq<Project>, index: int, f: Field, v: string, w: string)
    ensures UpdateProject(UpdateProject(data, index, f, v), index, f, w) == UpdateProject(data, index, f, w)
  {
    var twice := UpdateProject(UpdateProject(data, index, f, v), index, f, w);
    var once := UpdateProject(data, index, f, w);
    if 0 <= index < |data| {
      Extensionality(twice[index], once[index]);
      assert forall j :: 0 <= j < |data| ==> twice[j] == once[j];
    }
  }

  /** Writing back a field's current value changes nothing. */
  lemma UpdateWithCurrent(data: seq<Project>, index: int, f: Field)
    requires 0 <= index < |data|
    ensures UpdateProject(data, index, f, Get(data[index], f)) == data
  {
    var r := UpdateProject(data, index, f, Get(data[index], f));
    Extensionality(r[index], data[index]);
    assert forall j :: 0 <= j < |data| ==> r[j] == data[j];
  }
}
