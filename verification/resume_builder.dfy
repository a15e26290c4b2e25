/** The resume document and the builder's own transitions: the all-empty
    starting document, `updateResumeData`, which every form's `onChange` is
    routed through, and the simulated AI enhancement of the summary. The
    editor state pairs the document with the skills form's pending inputs. */
module ResumeBuilder {
  import PersonalInfoForm
  import EducationForm
  import ExperienceForm
  import ProjectsForm
  import SkillsForm
  import Text
  import opened Wrappers

  datatype ResumeData = ResumeData(
    personalInfo: PersonalInfoForm.PersonalInfo,
    education: seq<EducationForm.Education>,
    experience: seq<ExperienceForm.Experience>,
    projects: seq<ProjectsForm.Project>,
    skills: seq<SkillsForm.Skill>)

  /** `keyof ResumeData`. */
  datatype SectionKey = PersonalInfoKey | EducationKey | ExperienceKey | ProjectsKey | SkillsKey

  /** The value of one section, tagged with the section it belongs to. */
  datatype SectionValue =
    | PersonalInfoValue(info: PersonalInfoForm.PersonalInfo)
    | EducationValue(education: seq<EducationForm.Education>)
    | ExperienceValue(experience: seq<ExperienceForm.Experience>)
    | ProjectsValue(projects: seq<ProjectsForm.Project>)
    | SkillsValue(skills: seq<SkillsForm.Skill>)

  function KeyOf(v: SectionValue): SectionKey {
    match v
    case PersonalInfoValue(_) => PersonalInfoKey
    case EducationValue(_) => EducationKey
    case ExperienceValue(_) => ExperienceKey
    case ProjectsValue(_) => ProjectsKey
    case SkillsValue(_) => SkillsKey
  }

  /** `data[section]`. */
  function Section(d: ResumeData, k: SectionKey): (v: SectionValue)
    ensures KeyOf(v) == k
  {
    match k
    case PersonalInfoKey => PersonalInfoValue(d.personalInfo)
    case EducationKey => EducationValue(d.education)
    case ExperienceKey => ExperienceValue(d.experience)
    case ProjectsKey => ProjectsValue(d.projects)
    case SkillsKey => SkillsValue(d.skills)
  }

  /** `initialResumeData`: every personal field empty and every list empty. */
  function Initial(): (r: ResumeData)
    ensures forall f :: PersonalInfoForm.Get(r.personalInfo, f) == ""
    ensures r.education == [] && r.experience == [] && r.projects == [] && r.skills == []
  {
    ResumeData(PersonalInfoForm.Blank, [], [], [], [])
  }

  /** `updateResumeData(section, data)`: the section named by the value now
      holds that value, and every other section is as it was. */
  function UpdateResumeData(d: ResumeData, v: SectionValue): (r: ResumeData)
    ensures Section(r, KeyOf(v)) == v
    ensures forall k :: k != KeyOf(v) ==> Section(r, k) == Section(d, k)
  {
    match v
    case PersonalInfoValue(p) => d.(personalInfo := p)
    case EducationValue(e) => d.(education := e)
    case ExperienceValue(e) => d.(experience := e)
    case ProjectsValue(p) => d.(projects := p)
    case SkillsValue(s) => d.(skills := s)
  }

  /** Two documents that agree on every section are the same document. */
  lemma Extensionality(d: ResumeData, e: ResumeData)
    requires forall k :: Section(d, k) == Section(e, k)
    ensures d == e
  {
    assert Section(d, PersonalInfoKey) == Section(e, PersonalInfoKey);
    assert Section(d, EducationKey) == Section(e, EducationKey);
    assert Section(d, ExperienceKey) == Section(e, ExperienceKey);
    assert Section(d, ProjectsKey) == Section(e, ProjectsKey);
    assert Section(d, SkillsKey) == Section(e, SkillsKey);
  }

  /** Applying the same update twice is applying it once. */
  lemma UpdateIdempotent(d: ResumeData, v: SectionValue)
    ensures UpdateResumeData(UpdateResumeData(d, v), v) == UpdateResumeData(d, v)
  {
    var once := UpdateResumeData(d, v);
    var twice := UpdateResumeData(once, v);
    forall k ensures Section(twice, k) == Section(once, k) {
    }
    Extensionality(twice, once);
  }

  /** Of two updates to the same section only the last one survives. */
  lemma UpdateLastWins(d: ResumeData, v: SectionValue, w: SectionValue)
    requires KeyOf(v) == KeyOf(w)
    ensures UpdateResumeData(UpdateResumeData(d, v), w) == UpdateResumeData(d, w)
  {
    var a := UpdateResumeData(UpdateResumeData(d, v), w);
    var b := UpdateResumeData(d, w);
    forall k ensures Section(a, k) == Section(b, k) {
    }
    Extensionality(a, b);
  }

  /** Writing back a section's current value changes nothing. */
  lemma UpdateWithCurrent(d: ResumeData, k: SectionKey)
    ensures UpdateResumeData(d, Section(d, k)) == d
  {
    var r := UpdateResumeData(d, Section(d, k));
    forall j ensures Section(r, j) == Section(d, j) {
    }
    Extensionality(r, d);
  }

  /** The text the simulated enhancement appends to the summary. */
  const EnhancementSuffix: string := " Enhanced with AI insights for better professional impact."

  /** `enhanceWithAI`: the summary gets the fixed suffix, so it grows by
      exactly the suffix's length; the other personal fields and all the
      list sections are as they were. */
  function EnhanceWithAI(d: ResumeData): (r: ResumeData)
    ensures r.personalInfo.summary == d.personalInfo.summary + EnhancementSuffix
    ensures |r.personalInfo.summary| == |d.personalInfo.summary| + 58
    ensures forall f :: f != PersonalInfoForm.Summary ==>
      PersonalInfoForm.Get(r.personalInfo, f) == PersonalInfoForm.Get(d.personalInfo, f)
    ensures forall k :: k != PersonalInfoKey ==> Section(r, k) == Section(d, k)
  {
    var summary := d.personalInfo.summary + EnhancementSuffix;
    UpdateResumeData(d, PersonalInfoValue(
      PersonalInfoForm.UpdateField(d.personalInfo, PersonalInfoForm.Summary, summary)))
  }

  /** `n` copies of `s`, one after the other. */
  function Repeat(s: string, n: nat): (r: string)
    ensures |r| == n * |s|
  {
    if n == 0 then [] else Repeat(s, n - 1) + s
  }

  /** The document after pressing the enhance button `n` times. */
  function EnhanceTimes(d: ResumeData, n: nat): ResumeData {
    if n == 0 then d else EnhanceWithAI(EnhanceTimes(d, n - 1))
  }

  /** Pressing the enhance button `n` times appends `n` copies of the suffix
      and leaves every other part of the document alone. */
  lemma EnhanceRepeatedly(d: ResumeData, n: nat)
    ensures EnhanceTimes(d, n).personalInfo.summary == d.personalInfo.summary + Repeat(EnhancementSuffix, n)
    ensures forall f :: f != PersonalInfoForm.Summary ==>
      PersonalInfoForm.Get(EnhanceTimes(d, n).personalInfo, f) == PersonalInfoForm.Get(d.personalInfo, f)
    ensures forall k :: k != PersonalInfoKey ==> Section(EnhanceTimes(d, n), k) == Section(d, k)
  {
    SummaryAfterEnhancing(d, n);
    OtherFieldsAfterEnhancing(d, n);
    OtherSectionsAfterEnhancing(d, n);
  }

  lemma {:induction false} SummaryAfterEnhancing(d: ResumeData, n: nat)
    ensures EnhanceTimes(d, n).personalInfo.summary == d.personalInfo.summary + Repeat(EnhancementSuffix, n)
  {
    if n > 0 {
      SummaryAfterEnhancing(d, n - 1);
      var before := d.personalInfo.summary;
      var copies := Repeat(EnhancementSuffix, n - 1);
      assert (before + copies) + EnhancementSuffix == before + (copies + EnhancementSuffix);
    } else {
      assert d.personalInfo.summary + [] == d.personalInfo.summary;
    }
  }

  lemma {:induction false} OtherFieldsAfterEnhancing(d: ResumeData, n: nat)
    ensures forall f :: f != PersonalInfoForm.Summary ==>
      PersonalInfoForm.Get(EnhanceTimes(d, n).personalInfo, f) == PersonalInfoForm.Get(d.personalInfo, f)
  {
    if n > 0 {
      OtherFieldsAfterEnhancing(d, n - 1);
    }
  }

  lemma {:induction false} OtherSectionsAfterEnhancing(d: ResumeData, n: nat)
    ensures forall k :: k != PersonalInfoKey ==> Section(EnhanceTimes(d, n), k) == Section(d, k)
  {
    if n > 0 {
      OtherSectionsAfterEnhancing(d, n - 1);
    }
  }

  /** What the builder keeps between user actions: the document, and the
      skills form's pending inputs. */
  datatype Editor = Editor(data: ResumeData, pendingSkills: SkillsForm.PendingInputs)

  /** The editor every session starts from. */
  function InitialEditor(): Editor {
    Editor(Initial(), map[])
  }

  /** One user action in the form tabs, or the enhance button. */
  datatype Action =
    | EditPersonal(field: PersonalInfoForm.Field, value: string)
    | AddEducation
    | EditEducation(index: int, educationField: EducationForm.Field, value: string)
    | RemoveEducation(index: int)
    | AddExperience
    | EditExperience(index: int, experienceField: ExperienceForm.Field, value: string)
    | RemoveExperience(index: int)
    | AddProject
    | EditProject(index: int, projectField: ProjectsForm.Field, value: string)
    | RemoveProject(index: int)
    | AddSkillCategory
    | RenameCategory(index: int, value: string)
    | RemoveSkillItem(index: int, skillIndex: int)
    | RemoveCategory(index: int)
    | TypeSkill(index: int, value: string)
    | KeyInSkillInput(index: int, key: string)
    | PressAddSkill(index: int)
    | Enhance

  /** The section whose form (or, for the enhance button, whose field) an
      action belongs to. */
  function Target(a: Action): SectionKey {
    match a
    case EditPersonal(_, _) => PersonalInfoKey
    case Enhance => PersonalInfoKey
    case AddEducation | EditEducation(_, _, _) | RemoveEducation(_) => EducationKey
    case AddExperience | EditExperience(_, _, _) | RemoveExperience(_) => ExperienceKey
    case AddProject | EditProject(_, _, _) | RemoveProject(_) => ProjectsKey
    case _ => SkillsKey
  }

  /** The outcome of the skills form's add for an action that submits the
      pending text: Enter or the Add button. Other actions add nothing. */
  function SkillSubmission(e: Editor, a: Action): SkillsForm.ItemAdd {
    match a
    case KeyInSkillInput(i, key) => SkillsForm.HandleKeyPress(key, e.data.skills, e.pendingSkills, i)
    case PressAddSkill(i) => SkillsForm.AddSkillItem(e.data.skills, e.pendingSkills, i)
    case _ => SkillsForm.Ignored
  }

  /** The personal-information form (and the enhance button), handed the
      `personal_info` section: the record it passes on. */
  function PersonalChange(p: PersonalInfoForm.PersonalInfo, a: Action): PersonalInfoForm.PersonalInfo {
    match a
    case EditPersonal(f, v) => PersonalInfoForm.UpdateField(p, f, v)
    case Enhance => PersonalInfoForm.UpdateField(p, PersonalInfoForm.Summary, p.summary + EnhancementSuffix)
    case _ => p
  }

  /** The education form, handed the `education` section: the list it passes on. */
  function EducationChange(s: seq<EducationForm.Education>, a: Action): seq<EducationForm.Education> {
    match a
    case AddEducation => EducationForm.AddEducation(s)
    case EditEducation(i, f, v) => EducationForm.UpdateEducation(s, i, f, v)
    case RemoveEducation(i) => EducationForm.RemoveEducation(s, i)
    case _ => s
  }

  /** The experience form, handed the `experience` section: the list it passes on. */
  function ExperienceChange(s: seq<ExperienceForm.Experience>, a: Action): seq<ExperienceForm.Experience> {
    match a
    case AddExperience => ExperienceForm.AddExperience(s)
    case EditExperience(i, f, v) => ExperienceForm.UpdateExperience(s, i, f, v)
    case RemoveExperience(i) => ExperienceForm.RemoveExperience(s, i)
    case _ => s
  }

  /** The projects form, handed the `projects` section: the list it passes on. */
  function ProjectsChange(s: seq<ProjectsForm.Project>, a: Action): seq<ProjectsForm.Project> {
    match a
    case AddProject => ProjectsForm.AddProject(s)
    case EditProject(i, f, v) => ProjectsForm.UpdateProject(s, i, f, v)
    case RemoveProject(i) => ProjectsForm.RemoveProject(s, i)
    case _ => s
  }

  /** The skills form, handed the `skills` section: the list it passes on,
      if it calls `onChange` at all. */
  function SkillsChange(e: Editor, a: Action): Option<seq<SkillsForm.Skill>> {
    var s := e.data.skills;
    match a
    case AddSkillCategory => Some(SkillsForm.AddSkillCategory(s))
    case RenameCategory(i, v) => Some(SkillsForm.UpdateCategory(s, i, v))
    case RemoveSkillItem(i, j) => Some(SkillsForm.RemoveSkillItem(s, i, j))
    case RemoveCategory(i) => Some(SkillsForm.RemoveCategory(s, i))
    case _ =>
      (match SkillSubmission(e, a)
       case Ignored => None
       case Added(skills, _) => Some(skills))
  }

  /** The value an action's form hands to its `onChange`, if it calls it:
      each form is given its own section of the document and computes a new
      value for that same section. */
  function OnChange(e: Editor, a: Action): (r: Option<SectionValue>)
    ensures r.Some? ==> KeyOf(r.value) == Target(a)
  {
    var d := e.data;
    match Target(a)
    case PersonalInfoKey => Some(PersonalInfoValue(PersonalChange(d.personalInfo, a)))
    case EducationKey => Some(EducationValue(EducationChange(d.education, a)))
    case ExperienceKey => Some(ExperienceValue(ExperienceChange(d.experience, a)))
    case ProjectsKey => Some(ProjectsValue(ProjectsChange(d.projects, a)))
    case SkillsKey =>
      (match SkillsChange(e, a)
       case None => None
       case Some(skills) => Some(SkillsValue(skills)))
  }

  /** The skills form's pending inputs after an action. Only typing into a
      skill input and a submission by Enter or the Add button touch them;
      adding, renaming or removing a category, or removing an item, calls
      only `onChange`, so the map keeps its keys and texts: it is never
      re-keyed to follow the categories. */
  function PendingAfter(e: Editor, a: Action): (r: SkillsForm.PendingInputs)
    ensures Target(a) != SkillsKey ==> r == e.pendingSkills
    ensures !(a.TypeSkill? || a.KeyInSkillInput? || a.PressAddSkill?) ==> r == e.pendingSkills
  {
    match a
    case TypeSkill(i, v) => SkillsForm.TypePending(e.pendingSkills, i, v)
    case KeyInSkillInput(_, _) | PressAddSkill(_) =>
      (match SkillSubmission(e, a)
       case Ignored => e.pendingSkills
       case Added(_, pending) => pending)
    case _ => e.pendingSkills
  }

  /** One action: the form's `onChange`, when called, is wired to
      `updateResumeData` for the form's own section. So an action changes no
      section but its own, and only the skills form's actions touch the
      pending inputs. */
  function Step(e: Editor, a: Action): (r: Editor)
    ensures OnChange(e, a).Some? ==> Section(r.data, Target(a)) == OnChange(e, a).value
    ensures OnChange(e, a).None? ==> r.data == e.data
    ensures forall k :: k != Target(a) ==> Section(r.data, k) == Section(e.data, k)
    ensures Target(a) != SkillsKey ==> r.pendingSkills == e.pendingSkills
    ensures !(a.TypeSkill? || a.KeyInSkillInput? || a.PressAddSkill?) ==> r.pendingSkills == e.pendingSkills
  {
    var data :=
      match OnChange(e, a)
      case None => e.data
      case Some(v) => UpdateResumeData(e.data, v);
    Editor(data, PendingAfter(e, a))
  }

  /** The enhance button acts through the same section update as the forms. */
  lemma EnhanceStep(e: Editor)
    ensures Step(e, Enhance).data == EnhanceWithAI(e.data)
  {
  }

  /** A key other than Enter in a skill input changes nothing at all: neither
      the document nor any pending input. */
  lemma OtherKeyChangesNothing(e: Editor, i: int, key: string)
    requires key != SkillsForm.EnterKey
    ensures Step(e, KeyInSkillInput(i, key)) == e
  {
  }

  /** Enter in a skill input has exactly the effect of the Add button next
      to it, on the document and on the pending inputs. */
  lemma EnterIsAddButton(e: Editor, i: int)
    ensures Step(e, KeyInSkillInput(i, SkillsForm.EnterKey)) == Step(e, PressAddSkill(i))
  {
    SubmissionStep(e, KeyInSkillInput(i, SkillsForm.EnterKey));
    SubmissionStep(e, PressAddSkill(i));
    assert SkillSubmission(e, KeyInSkillInput(i, SkillsForm.EnterKey)) == SkillSubmission(e, PressAddSkill(i));
  }

  /** A submission of the pending text, by Enter or by the Add button, either
      leaves the editor as it was or installs the skills list and the pending
      map that `addSkillItem` computed. */
  lemma SubmissionStep(e: Editor, a: Action)
    requires a.KeyInSkillInput? || a.PressAddSkill?
    ensures var o := SkillSubmission(e, a);
      Step(e, a) == if o.Ignored? then e else Editor(e.data.(skills := o.data), o.pending)
  {
  }

  /** Removing a category replaces the skills list and nothing else. */
  lemma RemoveCategoryStep(e: Editor, i: int)
    ensures Step(e, RemoveCategory(i))
         == Editor(e.data.(skills := SkillsForm.RemoveCategory(e.data.skills, i)), e.pendingSkills)
  {
  }

  /** Removing a category leaves the pending inputs where they were, so the
      removed category's leftover text, added at the same index, goes to the
      category that followed it; the rest of the list is the list with
      category `i` removed, and only input `i` is cleared. */
  lemma RemoveThenAddShifts(e: Editor, i: int)
    requires 0 <= i && i + 1 < |e.data.skills|
    requires i in e.pendingSkills && !Text.AllWs(e.pendingSkills[i])
    ensures var s := e.data.skills;
      var next := SkillsForm.Skill(s[i + 1].category, s[i + 1].items + [Text.Trim(e.pendingSkills[i])]);
      Step(Step(e, RemoveCategory(i)), PressAddSkill(i))
        == Editor(e.data.(skills := s[..i] + [next] + s[i + 2..]), e.pendingSkills[i := ""])
  {
    var s := e.data.skills;
    var next := SkillsForm.Skill(s[i + 1].category, s[i + 1].items + [Text.Trim(e.pendingSkills[i])]);
    RemoveCategoryStep(e, i);
    var removed := Step(e, RemoveCategory(i));
    var rest := SkillsForm.RemoveCategory(s, i);
    SubmissionStep(removed, PressAddSkill(i));
    SkillsForm.PendingInputShiftsAfterRemoval(s, e.pendingSkills, i);
    var o := SkillsForm.AddSkillItem(rest, e.pendingSkills, i);
    var expected := s[..i] + [next] + s[i + 2..];
    assert |o.data| == |expected|;
    forall j | 0 <= j < |expected|
      ensures o.data[j] == expected[j]
    {
      if j < i {
        assert o.data[j] == rest[j];
      } else if j > i {
        assert o.data[j] == rest[j];
      }
    }
  }

  /** Typing a skill and pressing Enter files the trimmed text under that
      category and empties its input, starting from any editor. */
  lemma TypeThenEnter(e: Editor, i: int, text: string)
    requires 0 <= i < |e.data.skills|
    requires !Text.AllWs(text)
    ensures var r := Step(Step(e, TypeSkill(i, text)), KeyInSkillInput(i, SkillsForm.EnterKey));
      && r.data.skills[i].items == e.data.skills[i].items + [Text.Trim(text)]
      && r.pendingSkills[i] == ""
  {
    var typed := Step(e, TypeSkill(i, text));
    assert typed.data == e.data;
    assert typed.pendingSkills == SkillsForm.TypePending(e.pendingSkills, i, text);
    var enter := KeyInSkillInput(i, SkillsForm.EnterKey);
    var outcome := SkillsForm.AddSkillItem(e.data.skills, typed.pendingSkills, i);
    assert SkillSubmission(typed, enter) == outcome;
    assert outcome.Added?;
    var items := e.data.skills[i].items;
    assert outcome.data[i].items == items + [Text.Trim(text)];
    assert OnChange(typed, enter) == Some(SkillsValue(outcome.data));
    assert PendingAfter(typed, enter) == outcome.pending;
  }
}
