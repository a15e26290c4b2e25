/** The skills form: an ordered list of named categories, each holding an
    ordered list of skill strings. Besides the list edits the other forms have,
    it keeps a map of pending text, keyed by category index, for the "new skill"
    input of each category; pressing Enter or the Add button moves the trimmed
    pending text into the category. */
module SkillsForm {
  import SeqEdit
  import Text

  datatype Skill = Skill(category: string, items: seq<string>)

  /** `newSkillInputs`: the text typed into each category's input, by index.
      An index with nothing typed yet is absent. */
  type PendingInputs = map<int, string>

  /** What `addSkillItem` does: return early without touching anything, or
      hand `data` to `onChange` and store `pending` as the new input map. */
  datatype ItemAdd = Ignored | Added(data: seq<Skill>, pending: PendingInputs)

  /** The category the add button appends. */
  const BlankCategory: Skill := Skill("", [])

  /** `addSkillCategory`: one more category, unnamed and empty, after the
      existing ones in their order. */
  function AddSkillCategory(data: seq<Skill>): (r: seq<Skill>)
    ensures |r| == |data| + 1
    ensures r[..|data|] == data
    ensures r[|data|].category == "" && r[|data|].items == []
  {
    SeqEdit.Append(data, BlankCategory)
  }

  /** Removing the last category undoes adding one. */
  lemma AddThenRemoveLast(data: seq<Skill>)
    ensures RemoveCategory(AddSkillCategory(data), |data|) == data
  {
    SeqEdit.RemoveAppended(data, BlankCategory);
  }

  /** `updateCategory(index, category)`: only the name of category `index`
      changes; its items and every other category stay as they were. */
  function UpdateCategory(data: seq<Skill>, index: int, name: string): (r: seq<Skill>)
    ensures |r| == |data|
    ensures forall j :: 0 <= j < |data| && j != index ==> r[j] == data[j]
    ensures 0 <= index < |data| ==> r[index].category == name && r[index].items == data[index].items
    ensures !(0 <= index < |data|) ==> r == data
  {
    SeqEdit.MapAt(data, index, (s: Skill) => s.(category := name))
  }

  /** Of two renames of the same category only the second is visible. */
  lemma RenameLastWins(data: seq<Skill>, index: int, first: string, second: string)
    ensures UpdateCategory(UpdateCategory(data, index, first), index, second)
         == UpdateCategory(data, index, second)
  {
    var once := UpdateCategory(data, index, second);
    var twice := UpdateCategory(UpdateCategory(data, index, first), index, second);
    assert forall j :: 0 <= j < |data| ==> twice[j] == once[j];
  }

  /** Writing back a category's current name leaves the list as it was. */
  lemma RenameWithCurrent(data: seq<Skill>, index: int)
    requires 0 <= index < |data|
    ensures UpdateCategory(data, index, data[index].category) == data
  {
    var r := UpdateCategory(data, index, data[index].category);
    assert forall j :: 0 <= j < |data| ==> r[j] == data[j];
  }

  /** The input's own `onChange`: the text now in category `index`'s input. */
  function TypePending(pending: PendingInputs, index: int, text: string): (r: PendingInputs)
    ensures index in r && r[index] == text
    ensures forall k :: k != index ==> (k in r <==> k in pending)
    ensures forall k :: k in pending && k != index ==> r[k] == pending[k]
  {
    pending[index := text]
  }

  /** `newSkillInputs[categoryIndex]?.trim()` followed by the falsiness test:
      the skill to add, if any. There is none exactly when nothing was typed
      for the category or only white space was, and a skill that is there
      neither starts nor ends with white space. */
  function PendingSkill(pending: PendingInputs, index: int): (r: string)
    ensures r == [] <==> index !in pending || Text.AllWs(pending[index])
    ensures r == [] || (!Text.IsWs(r[0]) && !Text.IsWs(r[|r| - 1]))
    ensures index in pending ==> |r| <= |pending[index]|
  {
    if index in pending then Text.Trim(pending[index]) else []
  }

  /** `addSkillItem(categoryIndex)`. Nothing happens when no text is pending
      for the category or the text is only white space. Otherwise the trimmed
      text goes to the end of that category's items, every other category is
      untouched, and the pending text of that index, and only that index, is
      cleared. */
  function AddSkillItem(data: seq<Skill>, pending: PendingInputs, index: int): (r: ItemAdd)
    ensures r.Ignored? <==> index !in pending || Text.AllWs(pending[index])
    ensures r.Added? ==>
      && |r.data| == |data|
      && (forall j :: 0 <= j < |data| && j != index ==> r.data[j] == data[j])
      && (0 <= index < |data| ==>
            && r.data[index].category == data[index].category
            && |r.data[index].items| == |data[index].items| + 1
            && r.data[index].items[..|data[index].items|] == data[index].items
            && r.data[index].items[|data[index].items|] == Text.Trim(pending[index]))
      && (!(0 <= index < |data|) ==> r.data == data)
    ensures r.Added? ==>
      && index in r.pending && r.pending[index] == ""
      && (forall k :: k != index ==> (k in r.pending <==> k in pending))
      && (forall k :: k in pending && k != index ==> r.pending[k] == pending[k])
  {
    var skill := PendingSkill(pending, index);
    if skill == [] then Ignored
    else
      var updated := SeqEdit.MapAt(data, index, (s: Skill) => s.(items := SeqEdit.Append(s.items, skill)));
      Added(updated, pending[index := ""])
  }

  /** A skill that is added is non-empty and has no white space at either end. */
  lemma AddedSkillIsTrimmed(data: seq<Skill>, pending: PendingInputs, index: int)
    requires 0 <= index < |data|
    requires AddSkillItem(data, pending, index).Added?
    ensures var items := AddSkillItem(data, pending, index).data[index].items;
      && items != []
      && items[|items| - 1] != []
      && !Text.IsWs(items[|items| - 1][0])
      && !Text.IsWs(items[|items| - 1][|items[|items| - 1]| - 1])
  {
  }

  /** `removeSkillItem(categoryIndex, skillIndex)`: category `categoryIndex`
      loses item `skillIndex`, keeps its name and the other items in order;
      every other category is untouched. Indices outside their lists change
      nothing. */
  function RemoveSkillItem(data: seq<Skill>, categoryIndex: int, skillIndex: int): (r: seq<Skill>)
    ensures |r| == |data|
    ensures forall j :: 0 <= j < |data| && j != categoryIndex ==> r[j] == data[j]
    ensures 0 <= categoryIndex < |data| ==>
      && r[categoryIndex].category == data[categoryIndex].category
      && r[categoryIndex].items == SeqEdit.RemoveAt(data[categoryIndex].items, skillIndex)
    ensures !(0 <= categoryIndex < |data|) ==> r == data
  {
    SeqEdit.MapAt(data, categoryIndex, (s: Skill) => s.(items := SeqEdit.RemoveAt(s.items, skillIndex)))
  }

  /** `removeCategory(index)`: category `index` is gone and the others close
      up in order; an index outside the list changes nothing. The pending
      inputs are not part of the result: the map keeps its old keys. */
  function RemoveCategory(data: seq<Skill>, index: int): (r: seq<Skill>)
    ensures 0 <= index < |data| ==> |r| == |data| - 1 && r == data[..index] + data[index + 1..]
    ensures !(0 <= index < |data|) ==> r == data
  {
    SeqEdit.RemoveAt(data, index)
  }

  /** Because the pending map is keyed by index and not re-keyed on removal,
      the text left in a removed category's input is, on the next add at that
      index, filed under the category that moved into its position: the one
      that followed it in the original list. */
  lemma PendingInputShiftsAfterRemoval(data: seq<Skill>, pending: PendingInputs, index: int)
    requires 0 <= index && index + 1 < |data|
    requires index in pending && !Text.AllWs(pending[index])
    ensures var r := AddSkillItem(RemoveCategory(data, index), pending, index);
      && r.Added?
      && r.data[index].category == data[index + 1].category
      && r.data[index].items == data[index + 1].items + [Text.Trim(pending[index])]
  {
    var rest := RemoveCategory(data, index);
    assert rest[index] == data[index + 1];
    var r := AddSkillItem(rest, pending, index);
    assert r.data[index].items == rest[index].items + [Text.Trim(pending[index])];
  }

  /** For the same reason, text typed for the category just after a removed
      one is, on the next add at that index, filed under the category two
      places after the removed one in the original list. */
  lemma TypedTextSkipsAfterRemoval(data: seq<Skill>, pending: PendingInputs, index: int)
    requires 0 <= index && index + 2 < |data|
    requires index + 1 in pending && !Text.AllWs(pending[index + 1])
    ensures var r := AddSkillItem(RemoveCategory(data, index), pending, index + 1);
      && r.Added?
      && r.data[index + 1].category == data[index + 2].category
      && r.data[index + 1].items == data[index + 2].items + [Text.Trim(pending[index + 1])]
  {
    var rest := RemoveCategory(data, index);
    assert rest[index + 1] == data[index + 2];
    var r := AddSkillItem(rest, pending, index + 1);
    assert r.data[index + 1].items == rest[index + 1].items + [Text.Trim(pending[index + 1])];
  }

  /** The key that submits the pending text. */
  const EnterKey: string := "Enter"

  /** `handleKeyPress(e, categoryIndex)`: Enter adds the pending skill; every
      other key does nothing. */
  function HandleKeyPress(key: string, data: seq<Skill>, pending: PendingInputs, index: int): ItemAdd {
    if key == EnterKey then AddSkillItem(data, pending, index) else Ignored
  }
}
