/** The student's club page (src/pages/ClubDetails.tsx): the page state filled by
    `fetchClubData`, the join and leave handlers with the two-club limit, the membership
    test, and which sections and titles the stored `details` blob produces. The backend's
    answers are the parameters `Backend` and the insert or delete error code. */
module ClubDetails {
  import opened Wrappers
  import opened Text
  import opened ClubBlob
  import EditClubDialog

  /** The most clubs a student may join. */
  const MaxClubs: nat := 2

  /** The Postgres unique-violation code the insert reports for a repeated membership. */
  const DuplicateKey: string := "23505"

  datatype Location = OnClubPage | OnDashboard

  /** The page's state: the spinner flag, the member count shown, the ids of the clubs
      the user belongs to, and where the router is. */
  datatype PageState = PageState(loading: bool, memberCount: nat, joined: set<string>, location: Location)

  /** What the backend answers: whether the club row is found by id, the exact member
      count of a club (null as `None`), and the user's membership club ids (`None` when
      that query fails). */
  datatype Backend = Backend(
    clubFound: string -> bool,
    countOf: string -> Option<nat>,
    memberships: Option<seq<string>>)

  function IdsOf(m: seq<string>): (r: set<string>)
    ensures forall c :: c in r <==> c in m
  {
    set i | 0 <= i < |m| :: m[i]
  }

  /** `fetchClubData(userId, clubId)`. A missing club id or a failed club lookup throws
      before anything is set; a failed membership query throws after the count is set.
      Either error leads back to the dashboard. */
  function FetchClubData(st: PageState, clubId: Option<string>, b: Backend): (r: PageState)
    ensures (clubId.None? || !b.clubFound(clubId.value)) ==> r == st.(location := OnDashboard)
    ensures clubId.Some? && b.clubFound(clubId.value) ==>
              r.memberCount == b.countOf(clubId.value).GetOr(0)
    ensures clubId.Some? && b.clubFound(clubId.value) && b.memberships.None? ==>
              r.location == OnDashboard && r.joined == st.joined && r.loading == st.loading
    ensures clubId.Some? && b.clubFound(clubId.value) && b.memberships.Some? ==>
              r.location == st.location && !r.loading &&
              forall c :: c in r.joined <==> c in b.memberships.value
  {
    if clubId.None? || !b.clubFound(clubId.value) then st.(location := OnDashboard)
    else
      var counted := st.(memberCount := b.countOf(clubId.value).GetOr(0));
      if b.memberships.None? then counted.(location := OnDashboard)
      else counted.(joined := IdsOf(b.memberships.value), loading := false)
  }

  /** `isMember`: the route's club id is among the joined ids. */
  predicate IsMember(joined: set<string>, clubId: string) {
    clubId in joined
  }

  /** The yellow warning under the card. */
  predicate ShowLimitWarning(joined: set<string>, clubId: string) {
    !IsMember(joined, clubId) && |joined| >= MaxClubs
  }

  datatype JoinOutcome = LimitReached | AlreadyMember | Failed(code: string) | Joined

  /** The message `handleJoinClub` ends with. The insert is attempted only below the
      limit; `insertError` is the code the insert reports, `None` when it succeeds. */
  function JoinResult(joined: set<string>, insertError: Option<string>): (r: JoinOutcome)
    ensures r == LimitReached <==> |joined| >= MaxClubs
    ensures r == AlreadyMember <==> |joined| < MaxClubs && insertError == Some(DuplicateKey)
    ensures r.Failed? <==> |joined| < MaxClubs && insertError.Some? && insertError.value != DuplicateKey
    ensures r.Failed? ==> r.code == insertError.value
    ensures r == Joined <==> |joined| < MaxClubs && insertError.None?
  {
    if |joined| >= MaxClubs then LimitReached
    else if insertError.None? then Joined
    else if insertError.value == DuplicateKey then AlreadyMember
    else Failed(insertError.value)
  }

  /** Whether `handleJoinClub` sends the insert at all. */
  predicate InsertSent(joined: set<string>) {
    |joined| < MaxClubs
  }

  /** The Join button is what the page offers a non-member; when the warning is shown,
      pressing it is refused without an insert, and when the insert is refused for the
      limit, the warning was on screen. */
  lemma WarningMeansRefused(joined: set<string>, clubId: string, insertError: Option<string>)
    requires !IsMember(joined, clubId)
    ensures ShowLimitWarning(joined, clubId) <==> JoinResult(joined, insertError) == LimitReached
    ensures ShowLimitWarning(joined, clubId) <==> !InsertSent(joined)
  {
  }

  /** The page after `handleJoinClub` AS WRITTEN: a successful insert refreshes with
      `fetchClubData(profile.id)`, with no club id. */
  function JoinAsWritten(st: PageState, insertError: Option<string>, b: Backend): (r: (JoinOutcome, PageState))
    ensures r.0 == JoinResult(st.joined, insertError)
    ensures r.0 != Joined ==> r.1 == st
  {
    var outcome := JoinResult(st.joined, insertError);
    if outcome == Joined then (outcome, FetchClubData(st, None, b)) else (outcome, st)
  }

  /** With the club id missing, the refresh after every successful join fails: the user
      is sent to the dashboard and the page's joined set still lacks the club. */
  lemma JoinAsWrittenLeavesPage(st: PageState, clubId: string, b: Backend)
    requires |st.joined| < MaxClubs && !IsMember(st.joined, clubId)
    ensures var r := JoinAsWritten(st, None, b);
            r.0 == Joined && r.1.location == OnDashboard && !IsMember(r.1.joined, clubId)
  {
  }

  /** `handleJoinClub` with the refresh given the route's club id. */
  function Join(st: PageState, clubId: string, insertError: Option<string>, b: Backend): (r: (JoinOutcome, PageState))
    ensures r.0 == JoinResult(st.joined, insertError)
    ensures r.0 != Joined ==> r.1 == st
    ensures r.0 == Joined ==> r.1 == FetchClubData(st, Some(clubId), b)
  {
    var outcome := JoinResult(st.joined, insertError);
    if outcome == Joined then (outcome, FetchClubData(st, Some(clubId), b)) else (outcome, st)
  }

  /** With the club id passed, a successful join whose membership row the backend now
      returns leaves the user on the page as a member, with the club's fresh count. */
  lemma JoinShowsMembership(st: PageState, clubId: string, b: Backend)
    requires |st.joined| < MaxClubs && b.clubFound(clubId)
    requires b.memberships.Some? && clubId in b.memberships.value
    ensures var r := Join(st, clubId, None, b);
            r.0 == Joined && r.1.location == st.location && IsMember(r.1.joined, clubId) &&
            r.1.memberCount == b.countOf(clubId).GetOr(0)
  {
  }

  /** `handleLeaveClub` AS WRITTEN: on a successful delete the refresh has no club id. */
  function LeaveAsWritten(st: PageState, deleteError: Option<string>, b: Backend): (r: PageState)
    ensures deleteError.Some? ==> r == st
    ensures deleteError.None? ==> r.location == OnDashboard && r.joined == st.joined
  {
    if deleteError.Some? then st else FetchClubData(st, None, b)
  }

  /** `handleLeaveClub` with the refresh given the route's club id. */
  function Leave(st: PageState, clubId: string, deleteError: Option<string>, b: Backend): (r: PageState)
    ensures deleteError.Some? ==> r == st
    ensures deleteError.None? ==> r == FetchClubData(st, Some(clubId), b)
  {
    if deleteError.Some? then st else FetchClubData(st, Some(clubId), b)
  }

  /** A successful leave whose membership list no longer holds the club shows the Join
      button again. */
  lemma LeaveShowsJoin(st: PageState, clubId: string, b: Backend)
    requires b.clubFound(clubId) && b.memberships.Some? && clubId !in b.memberships.value
    ensures var r := Leave(st, clubId, None, b);
            r.location == st.location && !IsMember(r.joined, clubId)
  {
  }

  // ---------------------------------------------------------------------------
  // What the details blob shows

  function PresidentRaw(d: EditClubDialog.StoredDetails): Raw {
    if d.president.Some? then Str(d.president.value) else Absent
  }

  /** The Leadership section: some of the four roles is truthy. */
  predicate ShowLeadership(details: Option<EditClubDialog.StoredDetails>) {
    details.Some? &&
    (Truthy(PresidentRaw(details.value)) || Truthy(details.value.vicePresident) ||
     Truthy(details.value.secretary) || Truthy(details.value.facultyInCharge))
  }

  /** The 's' after a role title. */
  function PluralSuffix(r: Raw): (s: string)
    ensures s == "s" <==> r.StrList? && |r.items| > 1
    ensures s != "s" ==> s == ""
  {
    if r.StrList? && |r.items| > 1 then "s" else ""
  }

  /** The lines a role card renders: one per array element, in order, or the string. */
  function RoleLines(r: Raw): (lines: seq<string>)
    requires Truthy(r)
    ensures r.StrList? ==> lines == r.items
    ensures r.Str? ==> lines == [r.s]
  {
    if r.StrList? then r.items else [r.s]
  }

  /** The title is plural exactly when the card has more than one line. */
  lemma PluralIffSeveralLines(r: Raw)
    requires Truthy(r)
    ensures PluralSuffix(r) == "s" <==> |RoleLines(r)| > 1
  {
  }

  /** The page lists the same names the club editor opens with, except for a string of
      whitespace only, which the editor turns into one empty entry. */
  lemma RoleLinesMatchEditor(r: Raw)
    requires Truthy(r) && !(r.Str? && AllWhitespace(r.s))
    ensures RoleLines(r) == EditClubDialog.NormalizeToArray(r)
  {
  }

  /** Every role the editor has saved is stored as an array, which is truthy even when
      empty, so a club saved by the editor always shows the Leadership section. */
  lemma SavedClubShowsLeadership(d: EditClubDialog.Details)
    ensures ShowLeadership(Some(EditClubDialog.Store(d)))
  {
  }

  /** The activities and "More Info" sections need a present, non-empty list. */
  predicate ShowActivities(details: Option<EditClubDialog.StoredDetails>) {
    details.Some? && details.value.activities.Some? && |details.value.activities.value| > 0
  }

  predicate ShowCustomFields(details: Option<EditClubDialog.StoredDetails>) {
    details.Some? && details.value.customFields.Some? && |details.value.customFields.value| > 0
  }

  /** A club saved by the editor shows its activities exactly when it has some. */
  lemma SavedActivitiesShown(d: EditClubDialog.Details)
    ensures ShowActivities(Some(EditClubDialog.Store(d))) <==> |d.activities| > 0
    ensures ShowCustomFields(Some(EditClubDialog.Store(d))) <==> |d.customFields| > 0
  {
  }
}
