/** The skill-list editing of the profile page (frontend/src/pages/Profile.jsx):
    the profile being edited, the two draft skills typed into the "add"
    forms, and the four handlers that add a draft to, or remove an entry
    from, the `teach_skills` and `learn_skills` lists. The React state
    setters become a returned editor state and each `toast` becomes a
    returned notice. */
module ProfileEditor {
  import opened Wrappers
  import JsText

  /** One entry of a skill list, or a draft in an "add" form. */
  datatype Skill = Skill(name: string, category: string, proficiency: string)

  /** The profile record edited on the page. The skill lists may be absent
      when the backend returns a profile without them. */
  datatype Profile = Profile(
    name: string,
    bio: string,
    teachSkills: Option<seq<Skill>>,
    learnSkills: Option<seq<Skill>>,
    favoriteIceCream: string,
    spiritAnimal: string,
    personalityType: string,
    dailyRhythm: string,
    personalColor: string
  )

  /** Everything the handlers read and write: the profile and both drafts. */
  datatype Editor = Editor(profile: Profile, newTeachSkill: Skill, newLearnSkill: Skill)

  /** The notice a handler pops up. */
  datatype Toast = ToastSuccess(message: string) | ToastError(message: string)

  /** What a handler leaves behind: the new editor state and its notice. */
  datatype Reaction = Reaction(editor: Editor, toast: Toast)

  /** Which of the two lists a handler works on. */
  datatype ListKind = Teach | Learn

  /** The error a handler raises instead of returning. */
  datatype HandlerError = ListMissing

  const Categories: seq<string> :=
    ["Programming", "Frontend", "Backend", "Mobile", "AI", "Design", "DevOps", "Database", "Cloud", "Other"]

  const Proficiencies: seq<string> := ["beginner", "intermediate", "advanced", "expert"]

  const MissingNameMessage: string := "Please enter a skill name"
  const AddedMessage: string := "Skill added! Remember to save your profile."
  const RemovedMessage: string := "Skill removed! Remember to save your profile."

  /** The draft an "add" form starts with and is reset to after an add. */
  function EmptyDraft(): (d: Skill)
    ensures d.name == [] && d.category == Categories[0] && d.proficiency == Proficiencies[0]
  {
    Skill("", "Programming", "beginner")
  }

  /** The editor state before the profile has been loaded. */
  function InitialEditor(): (e: Editor)
    ensures e.profile.teachSkills == Some([]) && e.profile.learnSkills == Some([])
    ensures e.newTeachSkill == EmptyDraft() && e.newLearnSkill == EmptyDraft()
  {
    Editor(
      Profile("", "", Some([]), Some([]), "", "", "introvert", "early_bird", ""),
      EmptyDraft(),
      EmptyDraft())
  }

  function Skills(p: Profile, kind: ListKind): Option<seq<Skill>> {
    match kind
    case Teach => p.teachSkills
    case Learn => p.learnSkills
  }

  function WithSkills(p: Profile, kind: ListKind, skills: seq<Skill>): Profile {
    match kind
    case Teach => p.(teachSkills := Some(skills))
    case Learn => p.(learnSkills := Some(skills))
  }

  function Draft(e: Editor, kind: ListKind): Skill {
    match kind
    case Teach => e.newTeachSkill
    case Learn => e.newLearnSkill
  }

  function WithDraft(e: Editor, kind: ListKind, d: Skill): Editor {
    match kind
    case Teach => e.(newTeachSkill := d)
    case Learn => e.(newLearnSkill := d)
  }

  function Other(kind: ListKind): ListKind {
    match kind
    case Teach => Learn
    case Learn => Teach
  }

  /** `p` and `q` agree on every field except (possibly) the `kind` list. */
  predicate SameExceptList(p: Profile, q: Profile, kind: ListKind) {
    && p.name == q.name && p.bio == q.bio
    && Skills(p, Other(kind)) == Skills(q, Other(kind))
    && p.favoriteIceCream == q.favoriteIceCream && p.spiritAnimal == q.spiritAnimal
    && p.personalityType == q.personalityType && p.dailyRhythm == q.dailyRhythm
    && p.personalColor == q.personalColor
  }

  /** The list as the add handlers see it: `profile.x_skills || []`. */
  function ListOrEmpty(p: Profile, kind: ListKind): seq<Skill> {
    Skills(p, kind).GetOr([])
  }

  /** `handleAddTeachSkill` / `handleAddLearnSkill`. A draft whose name is
      blank after trimming is refused with an error notice and nothing
      changes. Otherwise the draft, with its name as typed, is appended to
      the list (a missing list counting as empty, duplicates kept), that
      form's draft is reset, and nothing else changes. */
  function AddSkill(e: Editor, kind: ListKind): (r: Reaction)
    ensures JsText.AllWhitespace(Draft(e, kind).name) ==>
              r.editor == e && r.toast == ToastError(MissingNameMessage)
    ensures !JsText.AllWhitespace(Draft(e, kind).name) ==>
              && r.toast == ToastSuccess(AddedMessage)
              && Skills(r.editor.profile, kind).Some?
              && var before := ListOrEmpty(e.profile, kind);
                 var after := Skills(r.editor.profile, kind).value;
                 && |after| == |before| + 1
                 && after[..|before|] == before
                 && after[|before|] == Draft(e, kind)
                 && SameExceptList(r.editor.profile, e.profile, kind)
                 && Draft(r.editor, kind) == EmptyDraft()
                 && Draft(r.editor, Other(kind)) == Draft(e, Other(kind))
  {
    var draft := Draft(e, kind);
    JsText.BlankIffAllWhitespace(draft.name);
    if JsText.IsBlank(draft.name) then
      Reaction(e, ToastError(MissingNameMessage))
    else
      var updated := ListOrEmpty(e.profile, kind) + [draft];
      var e' := e.(profile := WithSkills(e.profile, kind, updated));
      Reaction(WithDraft(e', kind, EmptyDraft()), ToastSuccess(AddedMessage))
  }

  /** `handleAddTeachSkill`: the learn list and its draft are untouched. */
  function HandleAddTeachSkill(e: Editor): (r: Reaction)
    ensures r.editor.profile.learnSkills == e.profile.learnSkills
    ensures r.editor.newLearnSkill == e.newLearnSkill
  {
    AddSkill(e, Teach)
  }

  /** `handleAddLearnSkill`: the teach list and its draft are untouched. */
  function HandleAddLearnSkill(e: Editor): (r: Reaction)
    ensures r.editor.profile.teachSkills == e.profile.teachSkills
    ensures r.editor.newTeachSkill == e.newTeachSkill
  {
    AddSkill(e, Learn)
  }

  /** `xs.filter((_, idx) => idx !== index)`, walking the array from the
      front the way `filter` does. */
  function FilterOutIndex<T>(xs: seq<T>, index: int): (r: seq<T>)
    ensures |r| == if 0 <= index < |xs| then |xs| - 1 else |xs|
  {
    FilterOutIndexFrom(xs, index, 0)
  }

  /** `filter` over the elements of `xs` from position `from` on, each
      element tested against its position. */
  function FilterOutIndexFrom<T>(xs: seq<T>, index: int, from: nat): (r: seq<T>)
    requires from <= |xs|
    ensures |r| == if from <= index < |xs| then |xs| - from - 1 else |xs| - from
    decreases |xs| - from
  {
    if from == |xs| then []
    else (if from != index then [xs[from]] else []) + FilterOutIndexFrom(xs, index, from + 1)
  }

  /** The reference meaning of removing position `index`: the elements
      before and after it, in order; nothing happens out of range. */
  function RemoveAt<T>(xs: seq<T>, index: int): seq<T> {
    if 0 <= index < |xs| then xs[..index] + xs[index + 1..] else xs
  }

  /** The filter in the handlers removes exactly the element at `index` and
      keeps the rest in order. */
  lemma {:induction false} FilterOutIndexIsRemoveAt<T>(xs: seq<T>, index: int)
    ensures FilterOutIndex(xs, index) == RemoveAt(xs, index)
  {
    FilterOutIndexFromIsRemoveAt(xs, index, 0);
  }

  lemma {:induction false} FilterOutIndexFromIsRemoveAt<T>(xs: seq<T>, index: int, from: nat)
    requires from <= |xs|
    ensures FilterOutIndexFrom(xs, index, from) == RemoveAt(xs[from..], index - from)
    decreases |xs| - from
  {
    if from < |xs| {
      FilterOutIndexFromIsRemoveAt(xs, index, from + 1);
      assert xs[from..] == [xs[from]] + xs[from + 1..];
      RemoveAtCons(xs[from], xs[from + 1..], index - from);
    }
  }

  /** Removal from a non-empty list, split at its head. */
  lemma RemoveAtCons<T>(x: T, tail: seq<T>, k: int)
    ensures RemoveAt([x] + tail, k) == (if k == 0 then tail else [x] + RemoveAt(tail, k - 1))
  {
    var xs := [x] + tail;
    if 0 < k <= |tail| {
      assert xs[..k] == [x] + tail[..k - 1];
      assert xs[k + 1..] == tail[k..];
    }
  }

  /** `handleRemoveTeachSkill` / `handleRemoveLearnSkill`. The entry at
      `index` is dropped and the others keep their order; an index out of
      range leaves the list as it is. The handler reads the list without a
      fallback, so on a missing list it raises instead. Drafts and every
      other field are untouched. */
  function RemoveSkill(e: Editor, kind: ListKind, index: int): (r: Result<Reaction, HandlerError>)
    ensures Skills(e.profile, kind).None? <==> r == Failure(ListMissing)
    ensures r.Success? ==>
              && r.value.toast == ToastSuccess(RemovedMessage)
              && r.value.editor.newTeachSkill == e.newTeachSkill
              && r.value.editor.newLearnSkill == e.newLearnSkill
              && SameExceptList(r.value.editor.profile, e.profile, kind)
              && Skills(r.value.editor.profile, kind).Some?
              && var before := Skills(e.profile, kind).value;
                 var after := Skills(r.value.editor.profile, kind).value;
                 && (0 <= index < |before| ==>
                       && |after| == |before| - 1
                       && after[..index] == before[..index]
                       && after[index..] == before[index + 1..])
                 && (!(0 <= index < |before|) ==> after == before)
  {
    match Skills(e.profile, kind)
    case None => Failure(ListMissing)
    case Some(before) =>
      var after := FilterOutIndex(before, index);
      FilterOutIndexIsRemoveAt(before, index);
      Success(Reaction(e.(profile := WithSkills(e.profile, kind, after)), ToastSuccess(RemovedMessage)))
  }

  /** `handleRemoveTeachSkill`: the learn list is untouched. */
  function HandleRemoveTeachSkill(e: Editor, index: int): (r: Result<Reaction, HandlerError>)
    ensures r.Success? ==> r.value.editor.profile.learnSkills == e.profile.learnSkills
  {
    RemoveSkill(e, Teach, index)
  }

  /** `handleRemoveLearnSkill`: the teach list is untouched. */
  function HandleRemoveLearnSkill(e: Editor, index: int): (r: Result<Reaction, HandlerError>)
    ensures r.Success? ==> r.value.editor.profile.teachSkills == e.profile.teachSkills
  {
    RemoveSkill(e, Learn, index)
  }

  /** Adding a skill and then removing the last entry gives back the list as
      it was before the add (with a missing list now present and empty),
      and leaves every other field as it was. */
  lemma AddThenRemoveLastRestoresList(e: Editor, kind: ListKind)
    requires !JsText.AllWhitespace(Draft(e, kind).name)
    ensures var added := AddSkill(e, kind).editor;
            var removed := RemoveSkill(added, kind, |ListOrEmpty(e.profile, kind)|);
            && removed.Success?
            && Skills(removed.value.editor.profile, kind) == Some(ListOrEmpty(e.profile, kind))
            && SameExceptList(removed.value.editor.profile, e.profile, kind)
  {
    var before := ListOrEmpty(e.profile, kind);
    var added := AddSkill(e, kind).editor;
    var after := Skills(added.profile, kind).value;
    var removed := RemoveSkill(added, kind, |before|);
    assert removed.Success?;
    var restored := Skills(removed.value.editor.profile, kind).value;
    assert restored == restored[..|before|] + restored[|before|..];
    assert restored[|before|..] == after[|before| + 1..] == [];
    assert restored == before;
    assert SameExceptList(removed.value.editor.profile, added.profile, kind);
    assert SameExceptList(added.profile, e.profile, kind);
  }

  /** Adding does not deduplicate: a draft equal to an entry already in the
      list is appended again, and the list grows. */
  lemma AddKeepsDuplicates(e: Editor, kind: ListKind, i: nat)
    requires i < |ListOrEmpty(e.profile, kind)| && ListOrEmpty(e.profile, kind)[i] == Draft(e, kind)
    requires !JsText.AllWhitespace(Draft(e, kind).name)
    ensures var after := Skills(AddSkill(e, kind).editor.profile, kind).value;
            && |after| == |ListOrEmpty(e.profile, kind)| + 1
            && multiset(after)[Draft(e, kind)] == multiset(ListOrEmpty(e.profile, kind))[Draft(e, kind)] + 1
  {
    var before := ListOrEmpty(e.profile, kind);
    var after := Skills(AddSkill(e, kind).editor.profile, kind).value;
    assert after == before + [Draft(e, kind)];
  }

  /** The name is stored as typed: surrounding spaces survive the add. */
  lemma AddStoresUntrimmedName()
    ensures var e := InitialEditor().(newTeachSkill := Skill("  React ", "Frontend", "expert"));
            Skills(AddSkill(e, Teach).editor.profile, Teach) == Some([Skill("  React ", "Frontend", "expert")])
  {
    var e := InitialEditor().(newTeachSkill := Skill("  React ", "Frontend", "expert"));
    assert !JsText.IsJsWhitespace('R');
    assert e.newTeachSkill.name[2] == 'R';
  }
}
