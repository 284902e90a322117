/** The administrator's editor for the question list and the career list:
    drafts typed into form fields, handlers that append, replace and delete
    entries, and the comma-separated universities field.

    Answer options are objects shared by reference, as in the browser: the
    edit form of a question works on the very objects the question list
    holds, and typing into it changes them in place. Careers are rebuilt as
    new records on every save, so they are values here. */
module AdminPanel {
  import opened Wrappers
  import opened Sequences
  import opened Text
  import opened Catalog

  /** The image a career gets when none is typed. */
  const DefaultImage: string := "https://images.unsplash.com/photo-1517694712202-14dd9538aa97?w=400&h=300&fit=crop"
  /** The single university a career gets when the field is left empty. */
  const DefaultUniversity: string := "Universidad"
  /** The separator the edit form puts between universities. */
  const UniversitySeparator: string := ", "
  /** The categories of the four blank answer options of a new question. */
  const DraftCategories: seq<string> := ["technical", "creative", "analytical", "social"]
  /** The value every answer option of the form carries. */
  const DraftValue: int := 3
  /** The type a new career starts with. */
  const DefaultCareerType: string := "Universitaria"

  // ---------------------------------------------------------------------
  // The list operations behind the handlers
  // ---------------------------------------------------------------------

  /** `s.filter((_, i) => i !== idx)`: keeps, in order, every element whose
      index is not `idx`. */
  function RemoveAt<T>(s: seq<T>, idx: int): (r: seq<T>)
    ensures |r| == if 0 <= idx < |s| then |s| - 1 else |s|
    decreases |s|
  {
    if |s| == 0 then []
    else
      var prefix := RemoveAt(s[..|s| - 1], idx);
      if |s| - 1 == idx then prefix else prefix + [s[|s| - 1]]
  }

  lemma SpliceSnoc<T>(s: seq<T>, idx: nat)
    requires idx < |s| - 1
    ensures s[..|s| - 1][..idx] + s[..|s| - 1][idx + 1..] + [s[|s| - 1]] == s[..idx] + s[idx + 1..]
  {
    var init := s[..|s| - 1];
    assert init[..idx] == s[..idx];
    assert init[idx + 1..] + [s[|s| - 1]] == s[idx + 1..];
  }

  /** Deleting an index in range splices that one element out; any other
      index leaves the list as it is. */
  lemma {:induction false} RemoveAtSplice<T>(s: seq<T>, idx: int)
    ensures 0 <= idx < |s| ==> RemoveAt(s, idx) == s[..idx] + s[idx + 1..]
    ensures !(0 <= idx < |s|) ==> RemoveAt(s, idx) == s
    decreases |s|
  {
    if |s| > 0 {
      var init := s[..|s| - 1];
      var last := s[|s| - 1];
      RemoveAtSplice(init, idx);
      if |s| - 1 == idx {
        assert RemoveAt(s, idx) == RemoveAt(init, idx) == init;
        assert init == s[..idx] && s[idx + 1..] == [];
      } else if 0 <= idx < |s| - 1 {
        assert RemoveAt(s, idx) == RemoveAt(init, idx) + [last];
        assert RemoveAt(init, idx) == init[..idx] + init[idx + 1..];
        SpliceSnoc(s, idx);
      } else {
        assert RemoveAt(s, idx) == RemoveAt(init, idx) + [last];
        assert init + [last] == s;
      }
    }
  }

  /** After a delete at `idx`, the elements before it keep their index and
      the ones after it move down by one. */
  lemma RemoveAtIndex<T>(s: seq<T>, idx: int, i: int)
    requires 0 <= idx < |s|
    requires 0 <= i < |s| - 1
    ensures RemoveAt(s, idx)[i] == if i < idx then s[i] else s[i + 1]
  {
    RemoveAtSplice(s, idx);
  }

  /** Where an edit index points after the delete of `idx` from a list of
      length `len`: one lower when an earlier entry goes, nowhere when its own
      entry goes, unchanged otherwise. */
  function IndexAfterDelete(id: Option<nat>, idx: int, len: nat): Option<nat>
  {
    if id.None? || !(0 <= idx < len) then id
    else if id.value == idx then None
    else if id.value > idx then Some(id.value - 1)
    else id
  }

  /** An edit index moved by `IndexAfterDelete` still names the entry it
      named before the delete, and it is cleared exactly when that entry is
      the one deleted. */
  lemma IndexAfterDeleteTracks<T>(s: seq<T>, id: nat, idx: int)
    requires id < |s|
    ensures IndexAfterDelete(Some(id), idx, |s|).None? <==> id == idx
    ensures IndexAfterDelete(Some(id), idx, |s|).Some? ==>
      && IndexAfterDelete(Some(id), idx, |s|).value < |RemoveAt(s, idx)|
      && RemoveAt(s, idx)[IndexAfterDelete(Some(id), idx, |s|).value] == s[id]
  {
    RemoveAtSplice(s, idx);
    if 0 <= idx < |s| && id != idx {
      var j := IndexAfterDelete(Some(id), idx, |s|).value;
      RemoveAtIndex(s, idx, j);
    }
  }

  /** `updated[i] = x` on a copy of a JavaScript array: replaces the element
      at an index in range and appends at the index one past the end. An
      index further out would leave holes in the array, which are not part
      of this model; the list is then left as it is. */
  function Store<T>(s: seq<T>, i: nat, x: T): seq<T>
  {
    if i < |s| then s[i := x] else if i == |s| then s + [x] else s
  }

  /** Storing at an index in range changes that index only. */
  lemma StoreInRange<T>(s: seq<T>, i: nat, x: T)
    requires i < |s|
    ensures |Store(s, i, x)| == |s| && Store(s, i, x)[i] == x
    ensures forall j :: 0 <= j < |s| && j != i ==> Store(s, i, x)[j] == s[j]
  {
  }

  // ---------------------------------------------------------------------
  // The universities field
  // ---------------------------------------------------------------------

  /** `field ? field.split(",").map((u) => u.trim()) : ["Universidad"]`. */
  function Universities(field: string): (r: seq<string>)
    ensures |r| > 0
    ensures field == "" ==> r == [DefaultUniversity]
  {
    if field == "" then [DefaultUniversity]
    else
      var parts := Split(field, ',');
      seq(|parts|, i requires 0 <= i < |parts| => Trim(parts[i]))
  }

  /** A non-empty field gives one university per comma-separated piece,
      each trimmed and free of commas. */
  lemma UniversitiesFacts(field: string)
    requires field != ""
    ensures |Universities(field)| == Count(field, ',') + 1
    ensures forall i :: 0 <= i < |Universities(field)| ==>
      Universities(field)[i] == Trim(Split(field, ',')[i])
    ensures forall i :: 0 <= i < |Universities(field)| ==>
      IsTrimmed(Universities(field)[i]) && ',' !in Universities(field)[i]
  {
    var parts := Split(field, ',');
    forall i | 0 <= i < |parts|
      ensures IsTrimmed(Trim(parts[i])) && ',' !in Trim(parts[i])
    {
      TrimKeepsAbsent(parts[i], ',');
    }
  }

  /** The edit form shows the universities joined by ", ". */
  function UniversitiesField(universities: seq<string>): string {
    Join(universities, UniversitySeparator)
  }

  /** The pieces `Join(us, ", ")` falls into when split on ",": every
      university but the first keeps the space before it. */
  function Spaced(us: seq<string>): (r: seq<string>)
    requires |us| > 0
    ensures |r| == |us| && r[0] == us[0]
    ensures forall i :: 0 < i < |us| ==> r[i] == " " + us[i]
  {
    [us[0]] + seq(|us| - 1, i requires 0 <= i < |us| - 1 => " " + us[i + 1])
  }

  lemma {:induction false} JoinSpaced(us: seq<string>)
    requires |us| > 0
    ensures Join(us, UniversitySeparator) == Join(Spaced(us), [','])
    decreases |us|
  {
    if |us| > 1 {
      var rest := us[1..];
      JoinSpaced(rest);
      var tail := Spaced(us)[1..];
      assert Spaced(us) == [us[0]] + tail;
      JoinCons(us[0], tail, [',']);
      // The spaced pieces of the tail are the tail's own spaced pieces with
      // a space before the first.
      assert tail == [" " + rest[0]] + Spaced(rest)[1..];
      if |rest| > 1 {
        JoinCons(" " + rest[0], Spaced(rest)[1..], [',']);
        assert Spaced(rest) == [rest[0]] + Spaced(rest)[1..];
        JoinCons(rest[0], Spaced(rest)[1..], [',']);
      } else {
        assert tail == [" " + rest[0]];
      }
    }
  }

  /** Splitting the edit form's field on "," gives the spaced pieces. */
  lemma SplitSpaced(us: seq<string>)
    requires |us| > 0
    requires forall i :: 0 <= i < |us| ==> ',' !in us[i]
    ensures Split(UniversitiesField(us), ',') == Spaced(us)
  {
    var spaced := Spaced(us);
    JoinSpaced(us);
    forall i | 0 <= i < |spaced| ensures ',' !in spaced[i] {
      if i > 0 {
        assert spaced[i] == [' '] + us[i];
      }
    }
    SplitJoin(spaced, ',');
  }

  /** Opening a career in the edit form and saving it untouched gives back
      its universities whenever each is trimmed, free of commas and the list
      does not join to the empty string. */
  lemma UniversitiesRoundTrip(us: seq<string>)
    requires |us| > 0 && UniversitiesField(us) != ""
    requires forall i :: 0 <= i < |us| ==> IsTrimmed(us[i]) && ',' !in us[i]
    ensures Universities(UniversitiesField(us)) == us
  {
    SplitSpaced(us);
    var spaced := Spaced(us);
    var r := Universities(UniversitiesField(us));
    assert |r| == |us|;
    forall i | 0 <= i < |us| ensures r[i] == us[i] {
      assert r[i] == Trim(spaced[i]);
      if i == 0 {
        TrimOfTrimmed(us[0]);
      } else {
        TrimAfterSpace(" ", us[i]);
      }
    }
  }

  /** A career without universities, or with one empty university, comes
      back from the edit form with the placeholder university. */
  lemma NoUniversitiesBecomeDefault(us: seq<string>)
    requires us == [] || us == [""]
    ensures Universities(UniversitiesField(us)) == [DefaultUniversity]
  {
  }

  /** A university whose name holds a comma comes back from the edit form
      as two universities. */
  lemma CommaInNameSplits()
    ensures Universities(UniversitiesField(["A,B"])) == ["A", "B"]
  {
    assert UniversitiesField(["A,B"]) == "A,B";
    assert Join(["A", "B"], [',']) == "A,B";
    SplitJoin(["A", "B"], ',');
    var r := Universities("A,B");
    assert |r| == 2 && r[0] == Trim("A") && r[1] == Trim("B");
    assert !IsSpace('A') && !IsSpace('B');
    assert Trim("A") == "A" && Trim("B") == "B";
  }

  /** `image || DefaultImage`. */
  function ImageOrDefault(image: string): (r: string)
    ensures r != ""
    ensures image != "" ==> r == image
    ensures image == "" ==> r == DefaultImage
  {
    if image == "" then DefaultImage else image
  }

  /** The text fields of a career form, as typed. */
  datatype CareerForm = CareerForm(
    name: string,
    careerType: string,
    description: string,
    salary: string,
    image: string,
    universities: string,
    youtubeLink: string)

  /** The guard of both career handlers: a name, a description and a
      salary. */
  predicate Complete(form: CareerForm) {
    form.name != "" && form.description != "" && form.salary != ""
  }

  /** The new-career form after a successful add: its text fields cleared,
      the type kept. */
  function Cleared(form: CareerForm): (r: CareerForm)
    ensures r.careerType == form.careerType
    ensures r.name == "" && r.description == "" && r.salary == ""
    ensures r.image == "" && r.universities == "" && r.youtubeLink == ""
  {
    CareerForm("", form.careerType, "", "", "", "", "")
  }

  /** The career `handleAddCareer` builds from the form. */
  function NewCareer(form: CareerForm): (c: Career)
    ensures c.name == form.name && c.careerType == form.careerType && c.description == form.description
    ensures c.salary == form.salary && c.youtubeLink == form.youtubeLink
    ensures c.image == ImageOrDefault(form.image) && c.universities == Universities(form.universities)
    ensures c.categories == [] && c.skills == []
  {
    Career(form.name, form.careerType, form.description, form.salary, ImageOrDefault(form.image),
           Universities(form.universities), form.youtubeLink, [], [])
  }

  /** The form `handleEditCareer` fills in from a career. */
  function FormOf(c: Career): (form: CareerForm)
    ensures form.name == c.name && form.careerType == c.careerType && form.description == c.description
    ensures form.salary == c.salary && form.image == c.image && form.youtubeLink == c.youtubeLink
    ensures form.universities == UniversitiesField(c.universities)
  {
    CareerForm(c.name, c.careerType, c.description, c.salary, c.image,
               UniversitiesField(c.universities), c.youtubeLink)
  }

  /** The career `handleSaveEditCareer` stores: the fields of the form over
      the career being edited, whose categories and skills stay. */
  function EditedCareer(base: Career, form: CareerForm): (c: Career)
    ensures c.name == form.name && c.careerType == form.careerType && c.description == form.description
    ensures c.salary == form.salary && c.youtubeLink == form.youtubeLink
    ensures c.image == ImageOrDefault(form.image) && c.universities == Universities(form.universities)
    ensures c.categories == base.categories && c.skills == base.skills
  {
    base.(name := form.name, careerType := form.careerType, description := form.description,
          salary := form.salary, image := ImageOrDefault(form.image),
          universities := Universities(form.universities), youtubeLink := form.youtubeLink)
  }

  /** Saving a career straight after opening it gives the career back
      whenever its image is set and its universities survive the round trip
      through the form. */
  lemma EditedCareerUnchanged(c: Career)
    requires c.image != ""
    requires Universities(UniversitiesField(c.universities)) == c.universities
    ensures EditedCareer(c, FormOf(c)) == c
  {
  }

  /** Only the list holding one empty university joins to the empty
      string. */
  lemma FieldEmpty(us: seq<string>)
    requires |us| > 0
    ensures UniversitiesField(us) == "" <==> us == [""]
  {
    if |us| > 1 {
      assert |UniversitiesField(us)| >= |UniversitySeparator|;
    }
  }

  /** An added career, opened for editing and saved untouched, is the added
      career again, unless its universities field held white space only. */
  lemma AddedCareerReopens(form: CareerForm)
    requires Universities(form.universities) != [""]
    ensures EditedCareer(NewCareer(form), FormOf(NewCareer(form))) == NewCareer(form)
  {
    var us := Universities(form.universities);
    if form.universities != "" {
      UniversitiesFacts(form.universities);
    } else {
      assert IsTrimmed(us[0]);
    }
    FieldEmpty(us);
    UniversitiesRoundTrip(us);
    EditedCareerUnchanged(NewCareer(form));
  }

  /** A universities field of white space only is stored as one empty
      university, which the edit form turns into the placeholder. */
  lemma BlankFieldReopensAsDefault()
    ensures Universities(" ") == [""]
    ensures Universities(UniversitiesField(Universities(" "))) == [DefaultUniversity]
  {
    assert Join([" "], [',']) == " ";
    SplitJoin([" "], ',');
    assert Trim(" ") == "" by { TrimEmpty(" "); }
  }

  // ---------------------------------------------------------------------
  // Answer options and questions
  // ---------------------------------------------------------------------

  /** One answer option of a question, an object the form edits in place. */
  class AnswerOption {
    var text: string
    var category: string
    var value: int

    constructor (text: string, category: string, value: int)
      ensures this.text == text && this.category == category && this.value == value
    {
      this.text := text;
      this.category := category;
      this.value := value;
    }
  }

  /** A question of the list: its text and its answer option objects. */
  datatype Question = Question(question: string, answers: seq<AnswerOption>)

  /** `answers.every((a) => a.text)`: every option has a non-empty text. */
  predicate AllAnswered(answers: seq<AnswerOption>)
    reads answers
  {
    forall a :: a in answers ==> a.text != ""
  }

  /** The texts of a list of options, read through the references. */
  function Texts(answers: seq<AnswerOption>): (r: seq<string>)
    reads answers
    ensures |r| == |answers| && forall i :: 0 <= i < |answers| ==> r[i] == answers[i].text
  {
    seq(|answers|, i requires 0 <= i < |answers| reads answers => answers[i].text)
  }

  /** Do the options of `answers` form the four blank options of a new
      question? */
  predicate IsBlankDraft(answers: seq<AnswerOption>)
    reads answers
  {
    && |answers| == |DraftCategories|
    && forall k :: 0 <= k < |answers| ==>
         answers[k].text == "" && answers[k].category == DraftCategories[k] && answers[k].value == DraftValue
  }

  /** The four blank options, as fresh objects. */
  method BlankDraft() returns (answers: seq<AnswerOption>)
    ensures IsBlankDraft(answers)
    ensures forall i :: 0 <= i < |answers| ==> fresh(answers[i])
  {
    var technical := new AnswerOption("", DraftCategories[0], DraftValue);
    var creative := new AnswerOption("", DraftCategories[1], DraftValue);
    var analytical := new AnswerOption("", DraftCategories[2], DraftValue);
    var social := new AnswerOption("", DraftCategories[3], DraftValue);
    answers := [technical, creative, analytical, social];
  }

  /** `answers.map((a) => ({ ...a }))`: fresh objects with the same fields. */
  method CopyOptions(answers: seq<AnswerOption>) returns (copies: seq<AnswerOption>)
    ensures |copies| == |answers|
    ensures forall i :: 0 <= i < |answers| ==>
      copies[i].text == answers[i].text && copies[i].category == answers[i].category
      && copies[i].value == answers[i].value
    ensures forall i :: 0 <= i < |copies| ==> fresh(copies[i])
  {
    copies := [];
    for i := 0 to |answers|
      invariant |copies| == i
      invariant forall j :: 0 <= j < i ==>
        copies[j].text == answers[j].text && copies[j].category == answers[j].category
        && copies[j].value == answers[j].value
      invariant forall j :: 0 <= j < i ==> fresh(copies[j])
    {
      var copy := new AnswerOption(answers[i].text, answers[i].category, answers[i].value);
      copies := copies + [copy];
    }
  }

  /** An edit index, when set, names an entry of a list of length `len`. */
  predicate InRange(id: Option<nat>, len: nat) {
    id.Some? ==> id.value < len
  }

  /** No option object of the question list is also an option of either
      form, and the two forms share none either: typing into a form changes
      that form only. */
  ghost predicate Detached(questions: seq<Question>, editAnswers: seq<AnswerOption>, newAnswers: seq<AnswerOption>)
  {
    && (forall q, a :: q in questions && a in q.answers ==> a !in editAnswers && a !in newAnswers)
    && (forall a :: a in editAnswers ==> a !in newAnswers)
  }

  // ---------------------------------------------------------------------
  // The panel
  // ---------------------------------------------------------------------

  /** The state of the administrator's panel: both lists, the two "new"
      forms, the two "edit" forms and the index each edit form works on. */
  class Panel {
    var questions: seq<Question>
    var newQuestionText: string
    var newAnswers: seq<AnswerOption>
    var editingQuestionId: Option<nat>
    var editQuestionText: string
    var editAnswers: seq<AnswerOption>

    var careers: seq<Career>
    var newCareer: CareerForm
    var editingCareerIdx: Option<nat>
    var editCareer: CareerForm

    /** The invariant the corrected handlers keep: each edit index names an
        entry of its list, and no option object is shared. */
    ghost predicate Valid()
      reads this
    {
      && InRange(editingQuestionId, |questions|)
      && InRange(editingCareerIdx, |careers|)
      && Detached(questions, editAnswers, newAnswers)
    }

    /** The panel as it opens over the question and career databases. */
    constructor (questions: seq<Question>, careers: seq<Career>)
      ensures Valid()
      ensures this.questions == questions && this.careers == careers
      ensures newQuestionText == "" && IsBlankDraft(newAnswers)
      ensures editingQuestionId == None && editQuestionText == ""
      ensures |editAnswers| == 1 && editAnswers[0].text == "" && editAnswers[0].category == DraftCategories[0]
      ensures editAnswers[0].value == DraftValue
      ensures editingCareerIdx == None
      ensures newCareer == CareerForm("", DefaultCareerType, "", "", "", "", "")
      ensures editCareer == CareerForm("", "", "", "", "", "", "")
      ensures forall i :: 0 <= i < |newAnswers| ==> fresh(newAnswers[i])
      ensures fresh(editAnswers[0])
    {
      var blank := BlankDraft();
      var single := new AnswerOption("", DraftCategories[0], DraftValue);
      this.questions := questions;
      this.careers := careers;
      newQuestionText := "";
      newAnswers := blank;
      editingQuestionId := None;
      editQuestionText := "";
      editAnswers := [single];
      newCareer := CareerForm("", DefaultCareerType, "", "", "", "", "");
      editingCareerIdx := None;
      editCareer := CareerForm("", "", "", "", "", "", "");
    }

    // ----- questions -----

    /** Typing into the question text box: the edit form's text while a
        question is being edited, the new form's otherwise. */
    method SetQuestionText(text: string)
      modifies this
      ensures editingQuestionId.Some? ==> editQuestionText == text && newQuestionText == old(newQuestionText)
      ensures editingQuestionId.None? ==> newQuestionText == text && editQuestionText == old(editQuestionText)
      ensures questions == old(questions) && newAnswers == old(newAnswers) && editAnswers == old(editAnswers)
      ensures editingQuestionId == old(editingQuestionId) && careers == old(careers)
      ensures editingCareerIdx == old(editingCareerIdx)
      ensures newCareer == old(newCareer) && editCareer == old(editCareer)
      ensures old(Valid()) ==> Valid()
    {
      if editingQuestionId.Some? {
        editQuestionText := text;
      } else {
        newQuestionText := text;
      }
    }

    /** Typing into the text box of option `idx`: the array is copied but
        the option object itself is changed in place. */
    method SetAnswerText(idx: nat, text: string)
      requires editingQuestionId.Some? ==> idx < |editAnswers|
      requires editingQuestionId.None? ==> idx < |newAnswers|
      modifies this, if editingQuestionId.Some? then editAnswers[idx] else newAnswers[idx]
      ensures questions == old(questions) && newAnswers == old(newAnswers) && editAnswers == old(editAnswers)
      ensures editingQuestionId == old(editingQuestionId) && careers == old(careers)
      ensures editingQuestionId.Some? ==> editAnswers[idx].text == text
      ensures editingQuestionId.None? ==> newAnswers[idx].text == text
      ensures editingQuestionId.Some? ==>
        editAnswers[idx].category == old(editAnswers[idx].category) && editAnswers[idx].value == old(editAnswers[idx].value)
      ensures editingQuestionId.None? ==>
        newAnswers[idx].category == old(newAnswers[idx].category) && newAnswers[idx].value == old(newAnswers[idx].value)
      ensures newQuestionText == old(newQuestionText) && editQuestionText == old(editQuestionText)
      ensures editingCareerIdx == old(editingCareerIdx)
      ensures newCareer == old(newCareer) && editCareer == old(editCareer)
      ensures old(Valid()) ==> Valid()
    {
      if editingQuestionId.Some? {
        editAnswers[idx].text := text;
      } else {
        newAnswers[idx].text := text;
      }
    }

    /** Choosing the category of option `idx`, in place like the text. */
    method SetAnswerCategory(idx: nat, category: string)
      requires editingQuestionId.Some? ==> idx < |editAnswers|
      requires editingQuestionId.None? ==> idx < |newAnswers|
      modifies this, if editingQuestionId.Some? then editAnswers[idx] else newAnswers[idx]
      ensures questions == old(questions) && newAnswers == old(newAnswers) && editAnswers == old(editAnswers)
      ensures editingQuestionId == old(editingQuestionId) && careers == old(careers)
      ensures editingQuestionId.Some? ==> editAnswers[idx].category == category
      ensures editingQuestionId.None? ==> newAnswers[idx].category == category
      ensures editingQuestionId.Some? ==>
        editAnswers[idx].text == old(editAnswers[idx].text) && editAnswers[idx].value == old(editAnswers[idx].value)
      ensures editingQuestionId.None? ==>
        newAnswers[idx].text == old(newAnswers[idx].text) && newAnswers[idx].value == old(newAnswers[idx].value)
      ensures newQuestionText == old(newQuestionText) && editQuestionText == old(editQuestionText)
      ensures editingCareerIdx == old(editingCareerIdx)
      ensures newCareer == old(newCareer) && editCareer == old(editCareer)
      ensures old(Valid()) ==> Valid()
    {
      if editingQuestionId.Some? {
        editAnswers[idx].category := category;
      } else {
        newAnswers[idx].category := category;
      }
    }

    /** `handleAddQuestion`: with a question text and every option answered,
        appends the question with the form's option objects and resets the
        form to four blank options; otherwise nothing changes. */
    method AddQuestion()
      modifies this
      ensures old(newQuestionText != "" && AllAnswered(newAnswers)) ==>
        && questions == old(questions) + [Question(old(newQuestionText), old(newAnswers))]
        && newQuestionText == "" && IsBlankDraft(newAnswers)
        && forall i :: 0 <= i < |newAnswers| ==> fresh(newAnswers[i])
      ensures !old(newQuestionText != "" && AllAnswered(newAnswers)) ==>
        questions == old(questions) && newQuestionText == old(newQuestionText) && newAnswers == old(newAnswers)
      ensures editingQuestionId == old(editingQuestionId) && editQuestionText == old(editQuestionText)
      ensures editAnswers == old(editAnswers) && careers == old(careers)
      ensures editingCareerIdx == old(editingCareerIdx)
      ensures newCareer == old(newCareer) && editCareer == old(editCareer)
      ensures old(Valid()) ==> Valid()
    {
      if newQuestionText != "" && AllAnswered(newAnswers) {
        questions := questions + [Question(newQuestionText, newAnswers)];
        newQuestionText := "";
        newAnswers := BlankDraft();
      }
    }

    /** `handleEditQuestion` as written: the edit form is given the very
        option objects of question `idx`. */
    method EditQuestion(idx: nat)
      requires idx < |questions|
      modifies this
      ensures questions == old(questions) && newQuestionText == old(newQuestionText)
      ensures editingQuestionId == Some(idx)
      ensures editQuestionText == questions[idx].question && editAnswers == questions[idx].answers
      ensures newAnswers == old(newAnswers) && careers == old(careers)
      ensures editingCareerIdx == old(editingCareerIdx)
      ensures newCareer == old(newCareer) && editCareer == old(editCareer)
    {
      editQuestionText := questions[idx].question;
      editAnswers := questions[idx].answers;
      editingQuestionId := Some(idx);
    }

    /** `handleEditQuestion` with the options copied into fresh objects, so
        that typing into the edit form leaves the list alone until saved. */
    method EditQuestionCopy(idx: nat)
      requires idx < |questions|
      modifies this
      ensures questions == old(questions) && newQuestionText == old(newQuestionText)
      ensures editingQuestionId == Some(idx) && editQuestionText == questions[idx].question
      ensures |editAnswers| == |questions[idx].answers|
      ensures forall i :: 0 <= i < |editAnswers| ==>
        && editAnswers[i].text == questions[idx].answers[i].text
        && editAnswers[i].category == questions[idx].answers[i].category
        && editAnswers[i].value == questions[idx].answers[i].value
      ensures Texts(editAnswers) == Texts(questions[idx].answers)
      ensures forall i :: 0 <= i < |editAnswers| ==> fresh(editAnswers[i])
      ensures newAnswers == old(newAnswers) && careers == old(careers)
      ensures editingCareerIdx == old(editingCareerIdx)
      ensures newCareer == old(newCareer) && editCareer == old(editCareer)
      ensures old(Valid()) ==> Valid()
    {
      var copies := CopyOptions(questions[idx].answers);
      editQuestionText := questions[idx].question;
      editAnswers := copies;
      editingQuestionId := Some(idx);
    }

    /** `handleSaveEditQuestion`: with an edit open, a text and every
        option answered, stores the edit form at the edit index, closes the
        edit and resets the edit form; otherwise nothing changes. */
    method SaveEditQuestion()
      modifies this
      ensures old(editingQuestionId.Some? && editQuestionText != "" && AllAnswered(editAnswers)) ==>
        && questions == Store(old(questions), old(editingQuestionId).value,
                              Question(old(editQuestionText), old(editAnswers)))
        && editingQuestionId == None && editQuestionText == ""
        && |editAnswers| == 1 && fresh(editAnswers[0]) && editAnswers[0].text == ""
        && editAnswers[0].category == DraftCategories[0] && editAnswers[0].value == DraftValue
      ensures !old(editingQuestionId.Some? && editQuestionText != "" && AllAnswered(editAnswers)) ==>
        && questions == old(questions) && editingQuestionId == old(editingQuestionId)
        && editQuestionText == old(editQuestionText) && editAnswers == old(editAnswers)
      ensures newQuestionText == old(newQuestionText) && newAnswers == old(newAnswers)
      ensures careers == old(careers) && editingCareerIdx == old(editingCareerIdx)
      ensures newCareer == old(newCareer) && editCareer == old(editCareer)
      ensures old(Valid()) ==> Valid()
    {
      if editingQuestionId.Some? && editQuestionText != "" && AllAnswered(editAnswers) {
        questions := Store(questions, editingQuestionId.value, Question(editQuestionText, editAnswers));
        editingQuestionId := None;
        editQuestionText := "";
        var single := new AnswerOption("", DraftCategories[0], DraftValue);
        editAnswers := [single];
      }
    }

    /** The "Cancelar" button of the question form: closes the edit only. */
    method CancelQuestionEdit()
      modifies this
      ensures editingQuestionId == None
      ensures questions == old(questions) && editQuestionText == old(editQuestionText)
      ensures editAnswers == old(editAnswers) && newQuestionText == old(newQuestionText)
      ensures newAnswers == old(newAnswers) && careers == old(careers)
      ensures editingCareerIdx == old(editingCareerIdx)
      ensures newCareer == old(newCareer) && editCareer == old(editCareer)
      ensures old(Valid()) ==> Valid()
    {
      editingQuestionId := None;
    }

    /** `handleDeleteQuestion` as written: once confirmed, removes question
        `idx` and leaves the edit index as it was. */
    method DeleteQuestion(idx: int, confirmed: bool)
      modifies this
      ensures confirmed ==> questions == RemoveAt(old(questions), idx)
      ensures !confirmed ==> questions == old(questions)
      ensures editingQuestionId == old(editingQuestionId) && editQuestionText == old(editQuestionText)
      ensures editAnswers == old(editAnswers) && newQuestionText == old(newQuestionText)
      ensures newAnswers == old(newAnswers) && careers == old(careers)
      ensures editingCareerIdx == old(editingCareerIdx)
      ensures newCareer == old(newCareer) && editCareer == old(editCareer)
    {
      if confirmed {
        questions := RemoveAt(questions, idx);
      }
    }

    /** `handleDeleteQuestion` keeping the edit index on the question it was
        opened on: it moves down when an earlier question goes, and the edit
        closes when its own question goes. */
    method DeleteQuestionTracked(idx: int, confirmed: bool)
      requires Valid()
      modifies this
      ensures Valid()
      ensures confirmed ==> questions == RemoveAt(old(questions), idx)
      ensures !confirmed ==> questions == old(questions)
      ensures editingQuestionId ==
        if confirmed then IndexAfterDelete(old(editingQuestionId), idx, |old(questions)|) else old(editingQuestionId)
      ensures editQuestionText == old(editQuestionText) && editAnswers == old(editAnswers)
      ensures newQuestionText == old(newQuestionText) && newAnswers == old(newAnswers)
      ensures careers == old(careers) && editingCareerIdx == old(editingCareerIdx)
      ensures newCareer == old(newCareer) && editCareer == old(editCareer)
    {
      if confirmed {
        RemoveAtSplice(questions, idx);
        if editingQuestionId.Some? {
          IndexAfterDeleteTracks(questions, editingQuestionId.value, idx);
        }
        editingQuestionId := IndexAfterDelete(editingQuestionId, idx, |questions|);
        var q := questions;
        questions := RemoveAt(questions, idx);
        assert forall x :: x in questions ==> x in q;
      }
    }

    // ----- careers -----

    /** `handleAddCareer`: with a name, a description and a salary, appends
        the career the form describes and clears the form's text fields (the
        type stays); otherwise nothing changes. */
    method AddCareer()
      modifies this
      ensures Complete(old(newCareer)) ==>
        careers == old(careers) + [NewCareer(old(newCareer))] && newCareer == Cleared(old(newCareer))
      ensures !Complete(old(newCareer)) ==> careers == old(careers) && newCareer == old(newCareer)
      ensures editingCareerIdx == old(editingCareerIdx) && editCareer == old(editCareer)
      ensures questions == old(questions) && editingQuestionId == old(editingQuestionId)
      ensures newAnswers == old(newAnswers) && editAnswers == old(editAnswers)
      ensures newQuestionText == old(newQuestionText) && editQuestionText == old(editQuestionText)
      ensures old(Valid()) ==> Valid()
    {
      if Complete(newCareer) {
        careers := careers + [NewCareer(newCareer)];
        newCareer := Cleared(newCareer);
      }
    }

    /** `handleEditCareer`: fills the edit form from career `idx`, the
        universities joined by ", ". */
    method EditCareer(idx: nat)
      requires idx < |careers|
      modifies this
      ensures careers == old(careers)
      ensures editingCareerIdx == Some(idx) && editCareer == FormOf(careers[idx])
      ensures newCareer == old(newCareer) && questions == old(questions)
      ensures editingQuestionId == old(editingQuestionId)
      ensures newAnswers == old(newAnswers) && editAnswers == old(editAnswers)
      ensures newQuestionText == old(newQuestionText) && editQuestionText == old(editQuestionText)
      ensures old(Valid()) ==> Valid()
    {
      editCareer := FormOf(careers[idx]);
      editingCareerIdx := Some(idx);
    }

    /** `handleSaveEditCareer`: with an edit open, a name, a description and
        a salary, stores the edited career at the edit index (keeping the
        categories and skills of the career there) and closes the edit; the
        form keeps its fields. Otherwise nothing changes. */
    method SaveEditCareer()
      modifies this
      ensures old(editingCareerIdx.Some? && Complete(editCareer) && editingCareerIdx.value < |careers|) ==>
        && careers == old(careers)[old(editingCareerIdx).value :=
             EditedCareer(old(careers)[old(editingCareerIdx).value], editCareer)]
        && editingCareerIdx == None
      ensures old(editingCareerIdx.Some? && Complete(editCareer) && editingCareerIdx.value >= |careers|) ==>
        careers == old(careers) && editingCareerIdx == None
      ensures !old(editingCareerIdx.Some? && Complete(editCareer)) ==>
        careers == old(careers) && editingCareerIdx == old(editingCareerIdx)
      ensures editCareer == old(editCareer) && newCareer == old(newCareer)
      ensures questions == old(questions) && editingQuestionId == old(editingQuestionId)
      ensures newAnswers == old(newAnswers) && editAnswers == old(editAnswers)
      ensures newQuestionText == old(newQuestionText) && editQuestionText == old(editQuestionText)
      ensures old(Valid()) ==> Valid()
    {
      if editingCareerIdx.Some? && Complete(editCareer) {
        var idx := editingCareerIdx.value;
        if idx < |careers| {
          careers := careers[idx := EditedCareer(careers[idx], editCareer)];
        }
        editingCareerIdx := None;
      }
    }

    /** The "Cancelar" button of the career form: closes the edit only. */
    method CancelCareerEdit()
      modifies this
      ensures editingCareerIdx == None && careers == old(careers)
      ensures questions == old(questions) && editingQuestionId == old(editingQuestionId)
      ensures newAnswers == old(newAnswers) && editAnswers == old(editAnswers)
      ensures newQuestionText == old(newQuestionText) && editQuestionText == old(editQuestionText)
      ensures newCareer == old(newCareer) && editCareer == old(editCareer)
      ensures old(Valid()) ==> Valid()
    {
      editingCareerIdx := None;
    }

    /** `handleDeleteCareer` as written: once confirmed, removes career
        `idx` and leaves the edit index as it was. */
    method DeleteCareer(idx: int, confirmed: bool)
      modifies this
      ensures confirmed ==> careers == RemoveAt(old(careers), idx)
      ensures !confirmed ==> careers == old(careers)
      ensures editingCareerIdx == old(editingCareerIdx)
      ensures questions == old(questions) && editingQuestionId == old(editingQuestionId)
      ensures newAnswers == old(newAnswers) && editAnswers == old(editAnswers)
      ensures newQuestionText == old(newQuestionText) && editQuestionText == old(editQuestionText)
      ensures newCareer == old(newCareer) && editCareer == old(editCareer)
    {
      if confirmed {
        careers := RemoveAt(careers, idx);
      }
    }

    /** `handleDeleteCareer` keeping the edit index on the career it was
        opened on, as `DeleteQuestionTracked` does for questions. */
    method DeleteCareerTracked(idx: int, confirmed: bool)
      requires Valid()
      modifies this
      ensures Valid()
      ensures confirmed ==> careers == RemoveAt(old(careers), idx)
      ensures !confirmed ==> careers == old(careers)
      ensures editingCareerIdx ==
        if confirmed then IndexAfterDelete(old(editingCareerIdx), idx, |old(careers)|) else old(editingCareerIdx)
      ensures questions == old(questions) && editingQuestionId == old(editingQuestionId)
      ensures newAnswers == old(newAnswers) && editAnswers == old(editAnswers)
      ensures newQuestionText == old(newQuestionText) && editQuestionText == old(editQuestionText)
      ensures newCareer == old(newCareer) && editCareer == old(editCareer)
    {
      if confirmed {
        if editingCareerIdx.Some? {
          IndexAfterDeleteTracks(careers, editingCareerIdx.value, idx);
        }
        editingCareerIdx := IndexAfterDelete(editingCareerIdx, idx, |careers|);
        careers := RemoveAt(careers, idx);
      }
    }
  }

  // ---------------------------------------------------------------------
  // What the handlers do when used one after another
  // ---------------------------------------------------------------------

  /** Opening a question with `EditQuestion`, typing "X" into its first
      option and pressing "Cancelar" leaves "X" in the question list: the
      cancelled edit is kept. */
  method CancelledEditIsKept() returns (panel: Panel)
    ensures |panel.questions| == 1 && |panel.questions[0].answers| == 1
    ensures panel.questions[0].answers[0].text == "X"
    ensures panel.editingQuestionId == None
  {
    var option := new AnswerOption("A", DraftCategories[0], DraftValue);
    panel := new Panel([Question("Q", [option])], []);
    panel.EditQuestion(0);
    panel.SetAnswerText(0, "X");
    panel.CancelQuestionEdit();
  }

  /** The same clicks with `EditQuestionCopy`: the option keeps its text. */
  method CancelledEditIsDropped() returns (panel: Panel)
    ensures |panel.questions| == 1 && |panel.questions[0].answers| == 1
    ensures panel.questions[0].answers[0].text == "A"
    ensures panel.editingQuestionId == None
  {
    var option := new AnswerOption("A", DraftCategories[0], DraftValue);
    panel := new Panel([Question("Q", [option])], []);
    panel.EditQuestionCopy(0);
    panel.SetAnswerText(0, "X");
    panel.CancelQuestionEdit();
  }

  /** While the corrected handlers are used, typing into the edit form
      changes no option of the question list. */
  lemma TypingLeavesListAlone(panel: Panel, idx: nat, q: Question, a: AnswerOption)
    requires panel.Valid() && panel.editingQuestionId.Some? && idx < |panel.editAnswers|
    requires q in panel.questions && a in q.answers
    ensures a != panel.editAnswers[idx]
  {
    assert panel.editAnswers[idx] in panel.editAnswers;
  }

  /** With questions A, B and C, opening B for editing, deleting A and
      saving B's edit as "B2" overwrites C: B stays and C is lost. */
  method StaleIndexOverwrites() returns (panel: Panel)
    ensures panel.questions == [Question("B", []), Question("B2", [])]
  {
    panel := new Panel([Question("A", []), Question("B", []), Question("C", [])], []);
    panel.EditQuestion(1);
    panel.DeleteQuestion(0, true);
    assert panel.questions == [Question("B", []), Question("C", [])] by {
      RemoveAtSplice([Question("A", []), Question("B", []), Question("C", [])], 0);
    }
    panel.SetQuestionText("B2");
    panel.SaveEditQuestion();
  }

  /** The same clicks with `DeleteQuestionTracked` save the edit over B. */
  method TrackedIndexSavesEditedQuestion() returns (panel: Panel)
    ensures panel.questions == [Question("B2", []), Question("C", [])]
  {
    panel := new Panel([Question("A", []), Question("B", []), Question("C", [])], []);
    panel.EditQuestionCopy(1);
    panel.DeleteQuestionTracked(0, true);
    assert panel.questions == [Question("B", []), Question("C", [])] by {
      RemoveAtSplice([Question("A", []), Question("B", []), Question("C", [])], 0);
    }
    panel.SetQuestionText("B2");
    panel.SaveEditQuestion();
  }
}
