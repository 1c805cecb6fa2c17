/** The student profile page's `checkAuth` (src/pages/StudentProfile.tsx): without a
    session the student is sent to sign in, a profile whose role is not 'student' is
    sent home, and otherwise the `profiles` row and the `students` row are merged into
    the record the page shows. Rows are loosely typed records: a map from column name
    to a JavaScript value. */
module StudentProfile {
  import opened Wrappers

  /** The JavaScript values a column can hold; `Undefined` is what reading a missing
      key gives. */
  datatype Value = Undefined | Null | Bool(b: bool) | Num(n: int) | Str(s: string)

  /** JavaScript truthiness (`NaN` has no counterpart here). */
  predicate Truthy(v: Value) {
    match v
    case Undefined => false
    case Null => false
    case Bool(b) => b
    case Num(n) => n != 0
    case Str(s) => s != ""
  }

  type Row = map<string, Value>

  /** `row.key`, or `row?.key` on an absent row. */
  function Get(row: Row, key: string): (v: Value)
    ensures key !in row ==> v == Undefined
  {
    if key in row then row[key] else Undefined
  }

  function GetIn(row: Option<Row>, key: string): Value {
    if row.Some? then Get(row.value, key) else Undefined
  }

  const AvatarKey: string := "avatar_url"
  const NameKey: string := "name"
  const FullNameKey: string := "full_name"
  const RoleKey: string := "role"

  /** `{...profileData, ...studentData, avatar_url: profileData.avatar_url,
      name: profileData.name || studentData?.full_name}`: a later spread overwrites an
      earlier key, and spreading `null` adds nothing. */
  function Merge(profile: Row, student: Option<Row>): (r: Row)
    ensures r.Keys == profile.Keys + (if student.Some? then student.value.Keys else {}) + {AvatarKey, NameKey}
    ensures r[AvatarKey] == Get(profile, AvatarKey)
    ensures r[NameKey] == if Truthy(Get(profile, NameKey)) then Get(profile, NameKey) else GetIn(student, FullNameKey)
  {
    var spread := if student.Some? then profile + student.value else profile;
    var name := if Truthy(Get(profile, NameKey)) then Get(profile, NameKey) else GetIn(student, FullNameKey);
    spread[AvatarKey := Get(profile, AvatarKey)][NameKey := name]
  }

  /** Where `checkAuth` ends. */
  datatype Outcome =
    | ToSignIn           // no session: navigate to '/student/auth'
    | ToHome             // `profileData?.role !== 'student'`: navigate to '/'
    | Show(profile: Row) // `setProfile(merged)` and the loading spinner goes away

  /** `checkAuth`. `profile` and `student` are the answers of the two `.single()`
      queries (`None` for `null`). The students row is only looked at once the role
      check has passed. */
  function CheckAuth(session: bool, profile: Option<Row>, student: Option<Row>): (r: Outcome)
    ensures r == ToSignIn <==> !session
    ensures r == ToHome <==> session && (profile.None? || Get(profile.value, RoleKey) != Str("student"))
    ensures r.Show? ==> r.profile == Merge(profile.value, student)
  {
    if !session then ToSignIn
    else if profile.None? || Get(profile.value, RoleKey) != Str("student") then ToHome
    else Show(Merge(profile.value, student))
  }

  /** A key only the profile row has keeps the profile's value. */
  lemma ProfileOnlyKeyKept(profile: Row, student: Option<Row>, key: string)
    requires key in profile && key != AvatarKey && key != NameKey
    requires student.None? || key !in student.value
    ensures key in Merge(profile, student) && Merge(profile, student)[key] == profile[key]
  {
  }

  /** A key both rows have takes the students row's value. */
  lemma SharedKeyFromStudent(profile: Row, student: Row, key: string)
    requires key in student && key != AvatarKey && key != NameKey
    ensures key in Merge(profile, Some(student)) && Merge(profile, Some(student))[key] == student[key]
  {
  }

  /** A students row never overrides the avatar, even when it has an `avatar_url` of its
      own. */
  lemma AvatarAlwaysFromProfile(profile: Row, s1: Option<Row>, s2: Option<Row>)
    ensures Merge(profile, s1)[AvatarKey] == Merge(profile, s2)[AvatarKey] == Get(profile, AvatarKey)
  {
  }

  /** A profile with a name shows that name; a profile without one falls back to the
      students row's `full_name`, and to nothing when there is no students row. */
  lemma NameFallback(profile: Row, student: Option<Row>)
    ensures Truthy(Get(profile, NameKey)) ==> Merge(profile, student)[NameKey] == profile[NameKey]
    ensures !Truthy(Get(profile, NameKey)) && student.Some? ==>
              Merge(profile, student)[NameKey] == Get(student.value, FullNameKey)
    ensures !Truthy(Get(profile, NameKey)) && student.None? ==> Merge(profile, student)[NameKey] == Undefined
  {
  }

  /** Without a students row the shown record is the profile row, with `avatar_url` and
      `name` set explicitly: a missing avatar becomes an `undefined` entry, and a falsy
      name (such as "") becomes `undefined`. */
  lemma NoStudentRow(profile: Row)
    ensures Merge(profile, None) ==
              profile[AvatarKey := Get(profile, AvatarKey)]
                     [NameKey := if Truthy(Get(profile, NameKey)) then profile[NameKey] else Undefined]
  {
  }

  /** When the profile already has both keys and a non-empty name, the merge with no
      students row gives the profile row back unchanged. */
  lemma NoStudentRowIdentity(profile: Row)
    requires AvatarKey in profile && NameKey in profile && Truthy(profile[NameKey])
    ensures Merge(profile, None) == profile
  {
    assert Merge(profile, None).Keys == profile.Keys;
  }

  /** A profile that is not a student's is never merged, whatever the students row. */
  lemma NonStudentNotMerged(profile: Row, student: Option<Row>, role: Value)
    requires role != Str("student")
    ensures !CheckAuth(true, Some(profile[RoleKey := role]), student).Show?
  {
  }
}
