/** The roster's records and the pure computations behind the page's handlers:
    merging the admin form into a record, editing and deleting by id, the
    day-and-search filter, and the stored theme flag. */
module Roster {
  import opened Seqs
  import opened Text

  datatype Option<T> = None | Some(value: T)

  /** One on-duty doctor for one day. */
  datatype Specialist = Specialist(
    id: string,
    day: string,
    specialty: string,
    name: string,
    shift: string,
    clinicName: string,
    originalInstitution: string)

  /** A site where specialists work; specialists refer to it by name only. */
  datatype Clinic = Clinic(id: string, name: string, address: string)

  /** The admin form, a partial specialist: every text field is always set, the id
      only once a record has been loaded into the form for editing. */
  datatype Form = Form(
    id: Option<string>,
    day: string,
    specialty: string,
    name: string,
    shift: string,
    clinicName: string,
    originalInstitution: string)

  /** The seven day labels, Sunday first, indexed like `Date.getDay()`. */
  const DAYS: seq<string> := ["الأحد", "الإثنين", "الثلاثاء", "الأربعاء", "الخميس", "الجمعة", "السبت"]

  /** Every entry is on one of the seven days, as the form's day select offers only those. */
  ghost predicate OnKnownDays(specs: seq<Specialist>)
  {
    forall i :: 0 <= i < |specs| ==> specs[i].day in DAYS
  }

  /** The shared PIN that unlocks admin mode. */
  const ADMIN_PIN: string := "2024"

  /** The form after a save or a cancel: the given day and empty text fields. */
  function BlankForm(day: string): (f: Form)
    ensures f.id == None && f.day == day
    ensures f.specialty == f.name == f.shift == f.clinicName == f.originalInstitution == ""
  {
    Form(None, day, "", "", "", "", "")
  }

  /** The form holding every field of `s`, as `startEditing` loads it. */
  function FormOf(s: Specialist): (f: Form)
    ensures f.id == Some(s.id)
    ensures forall t :: Merge(t, f) == s
  {
    Form(Some(s.id), s.day, s.specialty, s.name, s.shift, s.clinicName, s.originalInstitution)
  }

  /** `{ ...s, ...formData }`: the form's fields override the record's; the id only
      when the form carries one. */
  function Merge(s: Specialist, f: Form): (r: Specialist)
    ensures r.id == (if f.id.Some? then f.id.value else s.id)
    ensures r.day == f.day && r.specialty == f.specialty && r.name == f.name
    ensures r.shift == f.shift && r.clinicName == f.clinicName
    ensures r.originalInstitution == f.originalInstitution
  {
    var id := if f.id.Some? then f.id.value else s.id;
    Specialist(id, f.day, f.specialty, f.name, f.shift, f.clinicName, f.originalInstitution)
  }

  /** `{ ...formData, id }`: a new record with the form's fields and the given id. */
  function WithId(f: Form, id: string): (r: Specialist)
    ensures r.id == id
    ensures FormOf(r) == f.(id := Some(id))
  {
    Specialist(id, f.day, f.specialty, f.name, f.shift, f.clinicName, f.originalInstitution)
  }

  /** The admin form's inputs: one per text field of a specialist. */
  datatype FormField = DayField | ClinicNameField | SpecialtyField | NameField | ShiftField | OriginalInstitutionField

  /** `{ ...formData, [field]: v }`: one input's change handler. */
  function SetField(f: Form, field: FormField, v: string): (r: Form)
    ensures r.id == f.id
    ensures r.day == (if field == DayField then v else f.day)
    ensures r.clinicName == (if field == ClinicNameField then v else f.clinicName)
    ensures r.specialty == (if field == SpecialtyField then v else f.specialty)
    ensures r.name == (if field == NameField then v else f.name)
    ensures r.shift == (if field == ShiftField then v else f.shift)
    ensures r.originalInstitution == (if field == OriginalInstitutionField then v else f.originalInstitution)
  {
    match field
    case DayField => f.(day := v)
    case ClinicNameField => f.(clinicName := v)
    case SpecialtyField => f.(specialty := v)
    case NameField => f.(name := v)
    case ShiftField => f.(shift := v)
    case OriginalInstitutionField => f.(originalInstitution := v)
  }

  /** JavaScript truthiness of the editing id: null and "" both mean "not editing". */
  predicate EditMode(editing: Option<string>)
    ensures EditMode(editing) <==> editing != None && editing != Some("")
  {
    editing.Some? && editing.value != ""
  }

  /** Every id occurs at most once. The page never enforces this. */
  ghost predicate IdsUnique(specs: seq<Specialist>)
  {
    forall i, j :: 0 <= i < j < |specs| ==> specs[i].id != specs[j].id
  }

  // ---------------------------------------------------------------- editing

  /** `specialists.map(s => s.id === id ? { ...s, ...f } : s)`. */
  function ApplyEdit(specs: seq<Specialist>, id: string, f: Form): (r: seq<Specialist>)
    ensures |r| == |specs|
    ensures forall i :: 0 <= i < |specs| ==>
      r[i] == if specs[i].id == id then Merge(specs[i], f) else specs[i]
  {
    if specs == [] then []
    else [if specs[0].id == id then Merge(specs[0], f) else specs[0]] + ApplyEdit(specs[1..], id, f)
  }

  /** With unique ids, editing the record at position `k` replaces that one record. */
  lemma EditOneRecord(specs: seq<Specialist>, k: int, f: Form)
    requires IdsUnique(specs) && 0 <= k < |specs|
    ensures ApplyEdit(specs, specs[k].id, f) == specs[k := Merge(specs[k], f)]
  {
  }

  /** When the form's id is absent or equals the edited id, no record changes its id. */
  lemma EditKeepsIds(specs: seq<Specialist>, id: string, f: Form)
    requires f.id == None || f.id == Some(id)
    ensures forall i :: 0 <= i < |specs| ==> ApplyEdit(specs, id, f)[i].id == specs[i].id
  {
  }

  /** Loading a record into the form and saving it untouched leaves the roster as it
      was, provided every record carrying that id is that record. */
  lemma SaveUnchangedForm(specs: seq<Specialist>, s: Specialist)
    requires forall t :: t in specs && t.id == s.id ==> t == s
    ensures ApplyEdit(specs, s.id, FormOf(s)) == specs
  {
    var r := ApplyEdit(specs, s.id, FormOf(s));
    forall i | 0 <= i < |specs|
      ensures r[i] == specs[i]
    {
      assert specs[i] in specs;
    }
  }

  /** Appending a record under an id nobody has keeps the ids unique. */
  lemma AppendFreshKeepsUnique(specs: seq<Specialist>, f: Form, newId: string)
    requires IdsUnique(specs)
    requires forall s :: s in specs ==> s.id != newId
    ensures IdsUnique(specs + [WithId(f, newId)])
  {
    var r := specs + [WithId(f, newId)];
    forall i, j | 0 <= i < j < |r|
      ensures r[i].id != r[j].id
    {
      if j == |specs| {
        assert r[i] in specs;
      }
    }
  }

  // --------------------------------------------------------------- deleting

  /** `specialists.filter(s => s.id !== id)`. */
  function RemoveById(specs: seq<Specialist>, id: string): (r: seq<Specialist>)
    ensures forall s :: s in r <==> s in specs && s.id != id
  {
    FilterMembers(specs, (s: Specialist) => s.id != id);
    Filter(specs, (s: Specialist) => s.id != id)
  }

  /** Deletion keeps the other records in their order: the positions it keeps are
      exactly those whose id differs from the deleted one. */
  lemma RemoveKeepsOthersInOrder(specs: seq<Specialist>, id: string) returns (idx: seq<nat>)
    ensures Embeds(idx, RemoveById(specs, id), specs)
    ensures forall j :: 0 <= j < |specs| ==> (specs[j].id != id <==> j in idx)
  {
    idx := FilterPositions(specs, (s: Specialist) => s.id != id);
  }

  /** With unique ids, deleting the id of the record at `k` removes just that record. */
  lemma RemoveOneRecord(specs: seq<Specialist>, k: int)
    requires IdsUnique(specs) && 0 <= k < |specs|
    ensures RemoveById(specs, specs[k].id) == specs[..k] + specs[k + 1..]
  {
    var id := specs[k].id;
    var p := (s: Specialist) => s.id != id;
    var before, after := specs[..k], specs[k + 1..];
    assert specs == before + [specs[k]] + after;
    forall i | 0 <= i < |before|
      ensures p(before[i])
    {
      assert before[i] == specs[i];
    }
    forall i | 0 <= i < |after|
      ensures p(after[i])
    {
      assert after[i] == specs[k + 1 + i];
    }
    FilterDropsOne(before, specs[k], after, p);
  }

  /** Deleting keeps unique ids unique. */
  lemma RemoveKeepsUnique(specs: seq<Specialist>, id: string)
    requires IdsUnique(specs)
    ensures IdsUnique(RemoveById(specs, id))
  {
    var idx := RemoveKeepsOthersInOrder(specs, id);
    var r := RemoveById(specs, id);
    forall i, j | 0 <= i < j < |r|
      ensures r[i].id != r[j].id
    {
      assert idx[i] < idx[j];
    }
  }

  /** Deleting the entry just appended under an id nobody else has restores the
      roster as it was before the append. */
  lemma RemoveUndoesAppend(specs: seq<Specialist>, f: Form, newId: string)
    requires forall s :: s in specs ==> s.id != newId
    ensures RemoveById(specs + [WithId(f, newId)], newId) == specs
  {
    var p := (s: Specialist) => s.id != newId;
    var added := WithId(f, newId);
    forall i | 0 <= i < |specs|
      ensures p(specs[i])
    {
      assert specs[i] in specs;
    }
    FilterKeepsAll(specs, p);
    FilterConcat(specs, [added], p);
    assert [added][1..] == [];
    assert Filter([added], p) == [];
  }

  /** `clinics.filter(cl => cl.id !== id)`. */
  function RemoveClinicById(clinics: seq<Clinic>, id: string): (r: seq<Clinic>)
    ensures forall c :: c in r <==> c in clinics && c.id != id
  {
    FilterMembers(clinics, (c: Clinic) => c.id != id);
    Filter(clinics, (c: Clinic) => c.id != id)
  }

  // ---------------------------------------------------------------- search

  /** The search match: the lower-cased name, specialty or clinic name contains the
      lower-cased query. */
  predicate MatchesQuery(s: Specialist, query: string)
    ensures MatchesQuery(s, query) <==>
      || (exists i :: OccursAt(Lower(s.name), Lower(query), i))
      || (exists i :: OccursAt(Lower(s.specialty), Lower(query), i))
      || (exists i :: OccursAt(Lower(s.clinicName), Lower(query), i))
  {
    IncludesIff(Lower(s.name), Lower(query));
    IncludesIff(Lower(s.specialty), Lower(query));
    IncludesIff(Lower(s.clinicName), Lower(query));
    var q := Lower(query);
    Includes(Lower(s.name), q) || Includes(Lower(s.specialty), q) || Includes(Lower(s.clinicName), q)
  }

  /** An entry is listed when it is on `day` and, unless the query is "", matches it. */
  predicate Listed(s: Specialist, day: string, query: string)
    ensures Listed(s, day, query) ==> s.day == day
    ensures query == "" ==> (Listed(s, day, query) <==> s.day == day)
    ensures query != "" ==> (Listed(s, day, query) <==> s.day == day && MatchesQuery(s, query))
  {
    s.day == day && (query == "" || MatchesQuery(s, query))
  }

  /** What the page lists: the entries on `day`, narrowed by the query unless it is "". */
  function FilteredSpecialists(specs: seq<Specialist>, day: string, query: string): (r: seq<Specialist>)
    ensures forall s :: s in r <==> s in specs && Listed(s, day, query)
  {
    var onDay := Filter(specs, (s: Specialist) => s.day == day);
    FilterMembers(specs, (s: Specialist) => s.day == day);
    FilterMembers(onDay, (s: Specialist) => MatchesQuery(s, query));
    if query != "" then Filter(onDay, (s: Specialist) => MatchesQuery(s, query)) else onDay
  }

  /** The listed entries are, in their original order, exactly the positions whose
      entry is on the selected day and, for a non-empty query, matches it. */
  lemma FilteredInOrder(specs: seq<Specialist>, day: string, query: string) returns (idx: seq<nat>)
    ensures Embeds(idx, FilteredSpecialists(specs, day, query), specs)
    ensures forall j :: 0 <= j < |specs| ==> (Listed(specs[j], day, query) <==> j in idx)
  {
    var onDay := (s: Specialist) => s.day == day;
    var listed := (s: Specialist) => Listed(s, day, query);
    if query != "" {
      FilterTwice(specs, onDay, (s: Specialist) => MatchesQuery(s, query), listed);
    } else {
      assert Filter(specs, onDay) == Filter(specs, listed) by {
        FilterSamePredicate(specs, onDay, listed);
      }
    }
    idx := FilterPositions(specs, listed);
  }

  /** An empty query narrows nothing: the page lists every entry of the day. */
  lemma EmptyQueryListsWholeDay(specs: seq<Specialist>, day: string)
    ensures FilteredSpecialists(specs, day, "") == Filter(specs, (s: Specialist) => s.day == day)
  {
  }

  /** The query's letter case is irrelevant. */
  lemma QueryCaseIgnored(s: Specialist, query: string)
    ensures MatchesQuery(s, query) <==> MatchesQuery(s, Lower(query))
  {
    LowerIdempotent(query);
  }

  /** A query written exactly as it appears inside the name, specialty or clinic
      name matches, whatever the case of either. */
  lemma VerbatimQueryMatches(s: Specialist, query: string, i: int)
    requires OccursAt(s.name, query, i) || OccursAt(s.specialty, query, i)
          || OccursAt(s.clinicName, query, i)
    ensures MatchesQuery(s, query)
  {
    if OccursAt(s.name, query, i) {
      OccurrenceSurvivesLowering(s.name, query, i);
    } else if OccursAt(s.specialty, query, i) {
      OccurrenceSurvivesLowering(s.specialty, query, i);
    } else {
      OccurrenceSurvivesLowering(s.clinicName, query, i);
    }
  }

  // ----------------------------------------------------------------- theme

  /** The initial theme from the stored value: `saved ? saved === 'dark' : true`. */
  function InitialDarkMode(saved: Option<string>): (dark: bool)
    ensures dark <==> saved == None || saved == Some("") || saved == Some("dark")
  {
    if saved.Some? && saved.value != "" then saved.value == "dark" else true
  }

  /** The value the theme effect stores for a given flag. */
  function ThemeValue(dark: bool): (v: string)
    ensures v == "dark" || v == "light"
  {
    if dark then "dark" else "light"
  }

  /** A stored theme is restored identically on reload. */
  lemma ThemeRestored(dark: bool)
    ensures InitialDarkMode(Some(ThemeValue(dark))) == dark
  {
  }
}
