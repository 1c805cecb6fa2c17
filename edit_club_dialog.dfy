/** The admin's club editor (src/components/admin/EditClubDialog.tsx): the stored
    `details` blob is read into a form, normalising each leadership role to a list and
    moving legacy single activity images into an `images` list; the form is then edited
    through indexed change, append and remove operations. Each handler computes a new
    `details` value from the old one, so each is a function here. */
module EditClubDialog {
  import opened Wrappers
  import opened Text
  import opened ClubBlob
  import Seqs

  /** An activity as stored: newer rows carry `images`, older ones a single `image`. */
  datatype StoredActivity = StoredActivity(
    title: string, date: string, description: string,
    images: Option<seq<string>>, image: Option<string>)

  /** An activity in the form; `image` is the legacy field, which the object spread keeps. */
  datatype Activity = Activity(
    title: string, date: string, description: string,
    images: seq<string>, image: Option<string>)

  /** A "More Info" entry; its `label` is `labelText` here, `label` being a Dafny keyword. */
  datatype CustomField = CustomField(labelText: string, value: string, image: string)

  /** The `details` column as read: every key may be missing. */
  datatype StoredDetails = StoredDetails(
    foundedBy: Option<string>, president: Option<string>,
    vicePresident: Raw, secretary: Raw, facultyInCharge: Raw,
    activities: Option<seq<StoredActivity>>, customFields: Option<seq<CustomField>>)

  datatype Club = Club(name: string, description: Option<string>, details: Option<StoredDetails>)

  /** The `details` part of the form state. */
  datatype Details = Details(
    foundedBy: string, president: string,
    vicePresident: seq<string>, secretary: seq<string>, facultyInCharge: seq<string>,
    activities: seq<Activity>, customFields: seq<CustomField>)

  datatype Form = Form(name: string, description: string, details: Details)

  /** The keys the array handlers can be called with: the three leadership lists, the two
      single-string fields, and any other name (absent from the form). */
  datatype Key = VicePresident | Secretary | FacultyInCharge | FoundedBy | President | Unknown

  /** The field names `handleDetailsChange` accepts. */
  datatype TextField = FoundedByField | PresidentField

  datatype ActivityEdit =
    | SetTitle(title: string)
    | SetDate(date: string)
    | SetDescription(description: string)
    | SetImages(images: seq<string>)

  datatype CustomFieldEdit = SetLabel(labelText: string) | SetValue(value: string) | SetImage(image: string)

  // ---------------------------------------------------------------------------
  // Loading

  /** `normalizeToArray`: an array is kept as it is, a string with non-whitespace content
      becomes a one-element list, anything else becomes one empty entry. */
  function NormalizeToArray(data: Raw): (r: seq<string>)
    ensures data.StrList? ==> r == data.items
    ensures data.Str? && !AllWhitespace(data.s) ==> r == [data.s]
    ensures !data.StrList? && !(data.Str? && !AllWhitespace(data.s)) ==> r == [""]
    ensures r == [] <==> data == StrList([])
  {
    match data
    case StrList(items) => items
    case Str(s) =>
      TrimEmptyIffBlank(s);
      if Trim(s) != "" then [s] else [""]
    case Absent => [""]
  }

  /** The activity migration: stored `images` win, else a truthy legacy `image` becomes
      a one-element list, else the list is empty. */
  function MigrateActivity(a: StoredActivity): (r: Activity)
    ensures r.title == a.title && r.date == a.date && r.description == a.description
    ensures r.image == a.image
    ensures a.images.Some? ==> r.images == a.images.value
    ensures a.images.None? ==> (r.images == [] <==> a.image.GetOr("") == "")
    ensures a.images.None? && a.image.GetOr("") != "" ==> r.images == [a.image.value]
  {
    var images :=
      if a.images.Some? then a.images.value
      else if a.image.Some? && a.image.value != "" then [a.image.value]
      else [];
    Activity(a.title, a.date, a.description, images, a.image)
  }

  /** The `details` part of the form filled from a stored blob (`club.details || {}`). */
  function LoadDetails(stored: Option<StoredDetails>): (d: Details)
    ensures stored.None? ==> d == Details("", "", [""], [""], [""], [], [])
    ensures stored.Some? ==>
              var s := stored.value;
              d.foundedBy == s.foundedBy.GetOr("") && d.president == s.president.GetOr("") &&
              d.vicePresident == NormalizeToArray(s.vicePresident) &&
              d.secretary == NormalizeToArray(s.secretary) &&
              d.facultyInCharge == NormalizeToArray(s.facultyInCharge) &&
              d.activities == Seqs.Map(s.activities.GetOr([]), MigrateActivity) &&
              d.customFields == s.customFields.GetOr([])
  {
    var s := stored.GetOr(StoredDetails(None, None, Absent, Absent, Absent, None, None));
    Details(
      s.foundedBy.GetOr(""), s.president.GetOr(""),
      NormalizeToArray(s.vicePresident), NormalizeToArray(s.secretary),
      NormalizeToArray(s.facultyInCharge),
      Seqs.Map(s.activities.GetOr([]), MigrateActivity), s.customFields.GetOr([]))
  }

  /** The form the dialog opens with. */
  function Load(club: Club): (f: Form)
    ensures f.name == club.name && f.description == club.description.GetOr("")
    ensures f.details == LoadDetails(club.details)
  {
    Form(club.name, club.description.GetOr(""), LoadDetails(club.details))
  }

  /** What `handleSubmit` writes back to the `details` column. */
  function Store(d: Details): (s: StoredDetails)
    ensures s.foundedBy == Some(d.foundedBy) && s.president == Some(d.president)
    ensures s.vicePresident == StrList(d.vicePresident) && s.secretary == StrList(d.secretary)
    ensures s.facultyInCharge == StrList(d.facultyInCharge)
    ensures s.customFields == Some(d.customFields)
    ensures s.activities.Some? && |s.activities.value| == |d.activities|
    ensures forall i :: 0 <= i < |d.activities| ==>
              var a := d.activities[i];
              s.activities.value[i] == StoredActivity(a.title, a.date, a.description, Some(a.images), a.image)
  {
    var acts := seq(|d.activities|, i requires 0 <= i < |d.activities| =>
      StoredActivity(d.activities[i].title, d.activities[i].date, d.activities[i].description,
                     Some(d.activities[i].images), d.activities[i].image));
    StoredDetails(Some(d.foundedBy), Some(d.president), StrList(d.vicePresident), StrList(d.secretary),
                  StrList(d.facultyInCharge), Some(acts), Some(d.customFields))
  }

  /** Saving the form and opening the dialog again shows the same details: the load
      migration is the identity on anything the editor itself wrote. */
  lemma StoreThenLoad(d: Details)
    ensures LoadDetails(Some(Store(d))) == d
  {
    var acts := Store(d).activities.value;
    var migrated := Seqs.Map(acts, MigrateActivity);
    forall i | 0 <= i < |d.activities| ensures migrated[i] == d.activities[i] {
    }
  }

  /** Loading is idempotent: a loaded form saved and loaded again is unchanged. */
  lemma LoadStable(club: Club)
    ensures LoadDetails(Some(Store(LoadDetails(club.details)))) == LoadDetails(club.details)
  {
    StoreThenLoad(LoadDetails(club.details));
  }

  // ---------------------------------------------------------------------------
  // Edits

  /** `details[field]` when it is an array: the leadership lists; `None` for the others. */
  function ListOf(d: Details, key: Key): Option<seq<string>> {
    match key
    case VicePresident => Some(d.vicePresident)
    case Secretary => Some(d.secretary)
    case FacultyInCharge => Some(d.facultyInCharge)
    case _ => None
  }

  /** `{ ...details, [field]: list }` for a list key. */
  function WithList(d: Details, key: Key, list: seq<string>): (r: Details)
    requires ListOf(d, key).Some?
    ensures ListOf(r, key) == Some(list)
    ensures forall k :: k != key ==> ListOf(r, k) == ListOf(d, k)
    ensures r.foundedBy == d.foundedBy && r.president == d.president
    ensures r.activities == d.activities && r.customFields == d.customFields
  {
    match key
    case VicePresident => d.(vicePresident := list)
    case Secretary => d.(secretary := list)
    case FacultyInCharge => d.(facultyInCharge := list)
  }

  /** `handleDetailsChange`: one of the two single-string fields takes the new value. */
  function DetailsChange(d: Details, field: TextField, value: string): (r: Details)
    ensures field == FoundedByField ==> r.foundedBy == value && r.president == d.president
    ensures field == PresidentField ==> r.president == value && r.foundedBy == d.foundedBy
    ensures forall k :: ListOf(r, k) == ListOf(d, k)
    ensures r.activities == d.activities && r.customFields == d.customFields
  {
    match field
    case FoundedByField => d.(foundedBy := value)
    case PresidentField => d.(president := value)
  }

  /** `handleArrayChange`: on a list key, position `index` takes `value` and the rest of
      the details stay as they were; on any other key nothing changes. */
  function ArrayChange(d: Details, key: Key, index: nat, value: string): (r: Details)
    requires ListOf(d, key).Some? ==> index < |ListOf(d, key).value|
    ensures ListOf(d, key).None? ==> r == d
    ensures ListOf(d, key).Some? ==>
              var old_ := ListOf(d, key).value;
              var new_ := ListOf(r, key).value;
              ListOf(r, key).Some? && |new_| == |old_| && new_[index] == value &&
              forall j :: 0 <= j < |old_| && j != index ==> new_[j] == old_[j]
    ensures forall k :: k != key ==> ListOf(r, k) == ListOf(d, k)
    ensures r.foundedBy == d.foundedBy && r.president == d.president
    ensures r.activities == d.activities && r.customFields == d.customFields
  {
    match ListOf(d, key)
    case None => d
    case Some(list) => WithList(d, key, Seqs.SetAt(list, index, value))
  }

  /** `addArrayItem`: on a list key, one empty entry is appended. */
  function AddArrayItem(d: Details, key: Key): (r: Details)
    ensures ListOf(d, key).None? ==> r == d
    ensures ListOf(d, key).Some? ==> ListOf(r, key) == Some(ListOf(d, key).value + [""])
    ensures forall k :: k != key ==> ListOf(r, k) == ListOf(d, k)
    ensures r.foundedBy == d.foundedBy && r.president == d.president
    ensures r.activities == d.activities && r.customFields == d.customFields
  {
    match ListOf(d, key)
    case None => d
    case Some(list) => WithList(d, key, list + [""])
  }

  /** `removeArrayItem`: on a list key, the entry at `index` is dropped and the others
      keep their order; an index outside the list removes nothing. */
  function RemoveArrayItem(d: Details, key: Key, index: int): (r: Details)
    ensures ListOf(d, key).None? ==> r == d
    ensures ListOf(d, key).Some? ==>
              var old_ := ListOf(d, key).value;
              ListOf(r, key).Some? &&
              var new_ := ListOf(r, key).value;
              (0 <= index < |old_| ==>
                 |new_| == |old_| - 1 &&
                 (forall j :: 0 <= j < index ==> new_[j] == old_[j]) &&
                 (forall j :: index <= j < |new_| ==> new_[j] == old_[j + 1])) &&
              (!(0 <= index < |old_|) ==> new_ == old_)
    ensures forall k :: k != key ==> ListOf(r, k) == ListOf(d, k)
    ensures r.foundedBy == d.foundedBy && r.president == d.president
    ensures r.activities == d.activities && r.customFields == d.customFields
  {
    match ListOf(d, key)
    case None => d
    case Some(list) => WithList(d, key, Seqs.RemoveAt(list, index))
  }

  /** A list entry's remove button is offered only while the list has more than one entry. */
  predicate CanRemove(list: seq<string>) { |list| > 1 }

  /** Appending an entry and removing it again restores the details. */
  lemma AddThenRemoveLast(d: Details, key: Key)
    requires ListOf(d, key).Some?
    ensures RemoveArrayItem(AddArrayItem(d, key), key, |ListOf(d, key).value|) == d
  {
    var list := ListOf(d, key).value;
    assert Seqs.RemoveAt(list + [""], |list|) == list;
  }

  /** Writing the value already at a position changes nothing. */
  lemma ArrayChangeSameValue(d: Details, key: Key, index: nat)
    requires ListOf(d, key).Some? && index < |ListOf(d, key).value|
    ensures ArrayChange(d, key, index, ListOf(d, key).value[index]) == d
  {
    var list := ListOf(d, key).value;
    assert Seqs.SetAt(list, index, list[index]) == list;
  }

  /** A leadership list that is not empty stays non-empty under every edit the dialog
      offers: a change, an append, or a removal through a shown remove button. */
  lemma EditsKeepListNonEmpty(d: Details, key: Key, index: nat, value: string)
    requires ListOf(d, key).Some? && ListOf(d, key).value != []
    ensures index < |ListOf(d, key).value| ==> ListOf(ArrayChange(d, key, index, value), key).value != []
    ensures ListOf(AddArrayItem(d, key), key).value != []
    ensures CanRemove(ListOf(d, key).value) ==> ListOf(RemoveArrayItem(d, key, index), key).value != []
  {
  }

  /** The shape of an activity the dialog adds. */
  const BlankActivity: Activity := Activity("", "", "", [], None)

  const BlankCustomField: CustomField := CustomField("", "", "")

  /** `{ ...activity, [field]: value }`. */
  function EditActivity(a: Activity, e: ActivityEdit): (r: Activity)
    ensures e.SetTitle? ==> r == a.(title := e.title)
    ensures e.SetDate? ==> r == a.(date := e.date)
    ensures e.SetDescription? ==> r == a.(description := e.description)
    ensures e.SetImages? ==> r == a.(images := e.images)
  {
    match e
    case SetTitle(t) => a.(title := t)
    case SetDate(t) => a.(date := t)
    case SetDescription(t) => a.(description := t)
    case SetImages(imgs) => a.(images := imgs)
  }

  /** `handleActivityChange`: only the named field of the activity at `index` changes. */
  function ActivityChange(d: Details, index: nat, e: ActivityEdit): (r: Details)
    requires index < |d.activities|
    ensures |r.activities| == |d.activities| && r.activities[index] == EditActivity(d.activities[index], e)
    ensures forall j :: 0 <= j < |d.activities| && j != index ==> r.activities[j] == d.activities[j]
    ensures r == d.(activities := r.activities)
  {
    d.(activities := Seqs.SetAt(d.activities, index, EditActivity(d.activities[index], e)))
  }

  /** `addActivity`: a blank activity with an empty `images` list goes last. */
  function AddActivity(d: Details): (r: Details)
    ensures r.activities == d.activities + [BlankActivity] && r.activities[|d.activities|].images == []
    ensures r == d.(activities := r.activities)
  {
    d.(activities := d.activities + [BlankActivity])
  }

  /** `removeActivity`: exactly the activity at `index` is dropped. */
  function RemoveActivity(d: Details, index: int): (r: Details)
    ensures 0 <= index < |d.activities| ==>
              |r.activities| == |d.activities| - 1 &&
              (forall j :: 0 <= j < index ==> r.activities[j] == d.activities[j]) &&
              (forall j :: index <= j < |r.activities| ==> r.activities[j] == d.activities[j + 1])
    ensures !(0 <= index < |d.activities|) ==> r == d
    ensures r == d.(activities := r.activities)
  {
    d.(activities := Seqs.RemoveAt(d.activities, index))
  }

  function EditCustomField(c: CustomField, e: CustomFieldEdit): (r: CustomField)
    ensures e.SetLabel? ==> r == c.(labelText := e.labelText)
    ensures e.SetValue? ==> r == c.(value := e.value)
    ensures e.SetImage? ==> r == c.(image := e.image)
  {
    match e
    case SetLabel(t) => c.(labelText := t)
    case SetValue(t) => c.(value := t)
    case SetImage(t) => c.(image := t)
  }

  /** `handleCustomFieldChange`: only the named field of the entry at `index` changes. */
  function CustomFieldChange(d: Details, index: nat, e: CustomFieldEdit): (r: Details)
    requires index < |d.customFields|
    ensures |r.customFields| == |d.customFields| &&
            r.customFields[index] == EditCustomField(d.customFields[index], e)
    ensures forall j :: 0 <= j < |d.customFields| && j != index ==> r.customFields[j] == d.customFields[j]
    ensures r == d.(customFields := r.customFields)
  {
    d.(customFields := Seqs.SetAt(d.customFields, index, EditCustomField(d.customFields[index], e)))
  }

  /** `addCustomField`: a blank entry goes last. */
  function AddCustomField(d: Details): (r: Details)
    ensures r.customFields == d.customFields + [BlankCustomField]
    ensures r == d.(customFields := r.customFields)
  {
    d.(customFields := d.customFields + [BlankCustomField])
  }

  /** `removeCustomField`: exactly the entry at `index` is dropped. */
  function RemoveCustomField(d: Details, index: int): (r: Details)
    ensures 0 <= index < |d.customFields| ==>
              |r.customFields| == |d.customFields| - 1 &&
              (forall j :: 0 <= j < index ==> r.customFields[j] == d.customFields[j]) &&
              (forall j :: index <= j < |r.customFields| ==> r.customFields[j] == d.customFields[j + 1])
    ensures !(0 <= index < |d.customFields|) ==> r == d
    ensures r == d.(customFields := r.customFields)
  {
    d.(customFields := Seqs.RemoveAt(d.customFields, index))
  }

  /** Adding a blank activity or custom field and removing the last entry restores the
      details. */
  lemma AddThenRemoveEntry(d: Details)
    ensures RemoveActivity(AddActivity(d), |d.activities|) == d
    ensures RemoveCustomField(AddCustomField(d), |d.customFields|) == d
  {
    assert Seqs.RemoveAt(d.activities + [BlankActivity], |d.activities|) == d.activities;
    assert Seqs.RemoveAt(d.customFields + [BlankCustomField], |d.customFields|) == d.customFields;
  }

  /** Two edits of different activities commute. */
  lemma ActivityChangesCommute(d: Details, i: nat, j: nat, e: ActivityEdit, f: ActivityEdit)
    requires i < |d.activities| && j < |d.activities| && i != j
    ensures ActivityChange(ActivityChange(d, i, e), j, f) == ActivityChange(ActivityChange(d, j, f), i, e)
  {
    var a := ActivityChange(ActivityChange(d, i, e), j, f).activities;
    var b := ActivityChange(ActivityChange(d, j, f), i, e).activities;
    assert a == b;
  }
}
