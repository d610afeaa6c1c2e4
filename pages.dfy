/** The page controller (`PageController`): the profile-flag redirect, the
    birth-date prompt on the profile editor, the calendar and sidebar lists
    of a user's activities, and the participation notice on an activity's
    page. */
module Pages {
  import opened Common
  import opened Text
  import opened Users
  import opened Activities
  import opened ParticipationEntity
  import opened Redirects

  // ---------------------------------------------------------------------
  // Profile flags

  const ProfileEditPrefix: string := "redirect:/profile/edit?"

  /** The flags `profile` forwards, in their fixed order. */
  function ProfileParams(completeProfile: bool, birthDateRequired: bool, errorBirthDateRequired: bool): seq<Param> {
    WithFlag(WithFlag(WithFlag([], completeProfile, "completeProfile"), birthDateRequired, "birthDateRequired"),
             errorBirthDateRequired, "errorBirthDateRequired")
  }

  /** `profile` with any of its three flags: a redirect to the profile
      editor carrying the flags that were given; without any, no redirect
      (the profile page itself is shown). */
  method ProfileRedirect(completeProfile: bool, birthDateRequired: bool, errorBirthDateRequired: bool)
    returns (r: Option<string>)
    ensures r.None? <==> !(completeProfile || birthDateRequired || errorBirthDateRequired)
    ensures r.Some? ==> r.value == ProfileEditPrefix + RenderQuery(ProfileParams(completeProfile, birthDateRequired, errorBirthDateRequired))
  {
    if !(completeProfile || birthDateRequired || errorBirthDateRequired) {
      return None;
    }
    var redirect := "redirect:/profile/edit";
    if birthDateRequired || errorBirthDateRequired || completeProfile {
      redirect := redirect + "?";
      var hasPrev := false;
      ghost var ps: seq<Param> := [];
      assert redirect == ProfileEditPrefix + RenderQuery(ps);
      if completeProfile {
        ProfileFlagAppended(redirect, ps, "completeProfile");
        redirect := redirect + "completeProfile";
        hasPrev := true;
      }
      ps := WithFlag(ps, completeProfile, "completeProfile");
      if birthDateRequired {
        ProfileFlagAppended(redirect, ps, "birthDateRequired");
        if hasPrev {
          redirect := redirect + "&";
        }
        redirect := redirect + "birthDateRequired";
        hasPrev := true;
      }
      ps := WithFlag(ps, birthDateRequired, "birthDateRequired");
      if errorBirthDateRequired {
        ProfileFlagAppended(redirect, ps, "errorBirthDateRequired");
        if hasPrev {
          redirect := redirect + "&";
        }
        redirect := redirect + "errorBirthDateRequired";
      }
    }
    return Some(redirect);
  }

  /** Writing a flag after the flags already written: bare for the first
      one, after "&" for the others. */
  lemma ProfileFlagAppended(r: string, ps: seq<Param>, flag: string)
    requires r == ProfileEditPrefix + RenderQuery(ps)
    ensures ps == [] ==> r + flag == ProfileEditPrefix + RenderQuery(ps + [Param(flag, "")])
    ensures ps != [] ==> r + "&" + flag == ProfileEditPrefix + RenderQuery(ps + [Param(flag, "")])
  {
    if ps == [] {
      assert Rendered([Param(flag, "")]) == [flag];
    } else {
      JoinSnocFlag(ps, flag);
    }
  }

  /** `editProfile`: the birth date must be completed when it is missing and
      the page was reached with any of the three flags. */
  function MustCompleteBirthDate(birthDate: Option<Date>, completeProfile: bool, birthDateRequired: bool,
                                 errorBirthDateRequired: bool): (must: bool)
    ensures must ==> birthDate.None?
  {
    birthDate.None? && (completeProfile || birthDateRequired || errorBirthDateRequired)
  }

  /** Whether a request parameter is present in a query. */
  predicate HasParam(query: string, key: string) {
    Lookup(QueryParams(query), key).Some?
  }

  /** The editor reached through the profile redirect sees exactly the flags
      `profile` was given, so it asks for the birth date exactly when
      `profile` was asked to. */
  lemma ProfileFlagsReadBack(completeProfile: bool, birthDateRequired: bool, errorBirthDateRequired: bool,
                             birthDate: Option<Date>)
    ensures var q := RenderQuery(ProfileParams(completeProfile, birthDateRequired, errorBirthDateRequired));
            (HasParam(q, "completeProfile") <==> completeProfile) &&
            (HasParam(q, "birthDateRequired") <==> birthDateRequired) &&
            (HasParam(q, "errorBirthDateRequired") <==> errorBirthDateRequired) &&
            MustCompleteBirthDate(birthDate, HasParam(q, "completeProfile"), HasParam(q, "birthDateRequired"),
                                  HasParam(q, "errorBirthDateRequired")) ==
            MustCompleteBirthDate(birthDate, completeProfile, birthDateRequired, errorBirthDateRequired)
  {
    ProfileQueryReadsBack(completeProfile, birthDateRequired, errorBirthDateRequired);
  }

  /** On the editor reached through the profile redirect with any flag, the
      birth date is asked for exactly when it is missing. */
  lemma BirthDateAskedWhenMissing(completeProfile: bool, birthDateRequired: bool, errorBirthDateRequired: bool,
                                  birthDate: Option<Date>)
    requires completeProfile || birthDateRequired || errorBirthDateRequired
    ensures var q := RenderQuery(ProfileParams(completeProfile, birthDateRequired, errorBirthDateRequired));
            var must := MustCompleteBirthDate(birthDate, HasParam(q, "completeProfile"),
                                              HasParam(q, "birthDateRequired"), HasParam(q, "errorBirthDateRequired"));
            must <==> birthDate.None?
  {
    ProfileQueryReadsBack(completeProfile, birthDateRequired, errorBirthDateRequired);
  }

  /** A parameter is present in the written query exactly when it is among
      the flags written. */
  lemma ProfileQueryReadsBack(completeProfile: bool, birthDateRequired: bool, errorBirthDateRequired: bool)
    ensures var q := RenderQuery(ProfileParams(completeProfile, birthDateRequired, errorBirthDateRequired));
            (HasParam(q, "completeProfile") <==> completeProfile) &&
            (HasParam(q, "birthDateRequired") <==> birthDateRequired) &&
            (HasParam(q, "errorBirthDateRequired") <==> errorBirthDateRequired)
  {
    var ps := ProfileParams(completeProfile, birthDateRequired, errorBirthDateRequired);
    ProfileParamsWellFormed(completeProfile, birthDateRequired, errorBirthDateRequired);
    ProfileParamsLookup(completeProfile, birthDateRequired, errorBirthDateRequired);
    ParamReadBack(ps, "completeProfile");
    ParamReadBack(ps, "birthDateRequired");
    ParamReadBack(ps, "errorBirthDateRequired");
  }

  /** A key is present in a written query exactly when it is among the
      pairs written. */
  lemma ParamReadBack(ps: seq<Param>, k: string)
    requires forall p :: p in ps ==> WellFormedParam(p)
    ensures HasParam(RenderQuery(ps), k) <==> Lookup(ps, k).Some?
  {
    EntriesRoundTrip(ps);
    FirstWinsIsFirstOccurrence(ps);
  }

  lemma ProfileParamsWellFormed(completeProfile: bool, birthDateRequired: bool, errorBirthDateRequired: bool)
    ensures forall p :: p in ProfileParams(completeProfile, birthDateRequired, errorBirthDateRequired) ==> WellFormedParam(p)
  {
    var ps0 := WithFlag([], completeProfile, "completeProfile");
    var ps1 := WithFlag(ps0, birthDateRequired, "birthDateRequired");
    FlagWellFormed([], completeProfile, "completeProfile");
    FlagWellFormed(ps0, birthDateRequired, "birthDateRequired");
    FlagWellFormed(ps1, errorBirthDateRequired, "errorBirthDateRequired");
  }

  /** Appending a bare flag whose name has no separator and does not start
      with a space keeps every pair well formed. */
  lemma FlagWellFormed(ps: seq<Param>, given: bool, flag: string)
    requires forall p :: p in ps ==> WellFormedParam(p)
    requires flag != [] && !IsSpace(flag[0]) && '=' !in flag && '&' !in flag
    ensures forall p :: p in WithFlag(ps, given, flag) ==> WellFormedParam(p)
  {
    assert RenderParam(Param(flag, "")) == flag;
  }

  /** A flag's key is present exactly when the flag was given. */
  lemma ProfileParamsLookup(completeProfile: bool, birthDateRequired: bool, errorBirthDateRequired: bool)
    ensures var ps := ProfileParams(completeProfile, birthDateRequired, errorBirthDateRequired);
            (Lookup(ps, "completeProfile").Some? <==> completeProfile) &&
            (Lookup(ps, "birthDateRequired").Some? <==> birthDateRequired) &&
            (Lookup(ps, "errorBirthDateRequired").Some? <==> errorBirthDateRequired)
  {
    var ps0 := WithFlag([], completeProfile, "completeProfile");
    var ps1 := WithFlag(ps0, birthDateRequired, "birthDateRequired");
    assert |"completeProfile"| == 15 && |"birthDateRequired"| == 17 && |"errorBirthDateRequired"| == 22;
    LookupWithFlag([], completeProfile, "completeProfile", "completeProfile");
    LookupWithFlag(ps0, birthDateRequired, "birthDateRequired", "completeProfile");
    LookupWithFlag(ps1, errorBirthDateRequired, "errorBirthDateRequired", "completeProfile");
    LookupWithFlag([], completeProfile, "completeProfile", "birthDateRequired");
    LookupWithFlag(ps0, birthDateRequired, "birthDateRequired", "birthDateRequired");
    LookupWithFlag(ps1, errorBirthDateRequired, "errorBirthDateRequired", "birthDateRequired");
    LookupWithFlag([], completeProfile, "completeProfile", "errorBirthDateRequired");
    LookupWithFlag(ps0, birthDateRequired, "birthDateRequired", "errorBirthDateRequired");
    LookupWithFlag(ps1, errorBirthDateRequired, "errorBirthDateRequired", "errorBirthDateRequired");
  }

  // ---------------------------------------------------------------------
  // Lists of activities

  /** The non-null activities of a list that pass `keep`, in order. */
  function Present(xs: seq<Option<Activity>>, keep: Activity -> bool): (r: seq<Activity>)
    ensures forall a :: a in r ==> keep(a) && Some(a) in xs
    ensures forall i :: 0 <= i < |xs| && xs[i].Some? && keep(xs[i].value) ==> xs[i].value in r
  {
    if xs == [] then []
    else
      var front := Present(xs[..|xs| - 1], keep);
      var last := xs[|xs| - 1];
      LastSplit(xs);
      if last.Some? && keep(last.value) then front + [last.value] else front
  }

  /** Filtering a concatenation filters each part. */
  lemma {:induction false} PresentAppend(u: seq<Option<Activity>>, v: seq<Option<Activity>>, keep: Activity -> bool)
    ensures Present(u + v, keep) == Present(u, keep) + Present(v, keep)
    decreases |v|
  {
    if v != [] {
      var front := v[..|v| - 1];
      assert (u + v)[..|u + v| - 1] == u + front;
      assert (u + v)[|u + v| - 1] == v[|v| - 1];
      PresentAppend(u, front, keep);
      assert Present(u + v, keep) == Present(u + front, keep) + Present([v[|v| - 1]], keep);
      assert Present(v, keep) == Present(front, keep) + Present([v[|v| - 1]], keep);
      assert Present(u + front, keep) + Present([v[|v| - 1]], keep) ==
             Present(u, keep) + (Present(front, keep) + Present([v[|v| - 1]], keep));
    } else {
      assert u + v == u;
    }
  }

  predicate HasId(xs: seq<Activity>, id: Option<ActivityId>) {
    exists i :: 0 <= i < |xs| && xs[i].id == id
  }

  predicate DistinctIds(xs: seq<Activity>) {
    forall i, j :: 0 <= i < j < |xs| ==> xs[i].id != xs[j].id
  }

  /** The activities of a list with one per id, the first one met for each
      id, in the order of first occurrence (a `LinkedHashMap` keyed by id
      that keeps the existing entry). */
  function FirstById(xs: seq<Activity>): seq<Activity> {
    if xs == [] then []
    else
      var acc := FirstById(xs[..|xs| - 1]);
      if HasId(acc, xs[|xs| - 1].id) then acc else acc + [xs[|xs| - 1]]
  }

  /** One activity per id, every id of the input kept, nothing added. */
  lemma {:induction false} FirstByIdSpec(xs: seq<Activity>)
    ensures DistinctIds(FirstById(xs))
    ensures forall a :: a in FirstById(xs) ==> a in xs
    ensures forall i :: 0 <= i < |xs| ==> HasId(FirstById(xs), xs[i].id)
    decreases |xs|
  {
    if xs != [] {
      var front, last := xs[..|xs| - 1], xs[|xs| - 1];
      var acc := FirstById(front);
      FirstByIdSpec(front);
      LastSplit(xs);
      forall i | 0 <= i < |xs|
        ensures HasId(FirstById(xs), xs[i].id)
      {
        if i < |xs| - 1 {
          assert xs[i] == front[i];
          var j :| 0 <= j < |acc| && acc[j].id == front[i].id;
          assert FirstById(xs)[j] == acc[j];
        } else if !HasId(acc, last.id) {
          assert FirstById(xs)[|acc|] == last;
        }
      }
    }
  }

  /** Of the activities sharing an id with one from the first part of the
      list, the one kept comes from the first part. */
  lemma {:induction false} FirstByIdPrefers(u: seq<Activity>, v: seq<Activity>)
    ensures forall a :: a in FirstById(u + v) && HasId(u, a.id) ==> a in u
    decreases |v|
  {
    if v == [] {
      assert u + v == u;
      FirstByIdSpec(u);
    } else {
      var front, y := v[..|v| - 1], v[|v| - 1];
      assert (u + v)[..|u + v| - 1] == u + front;
      assert (u + v)[|u + v| - 1] == y;
      var acc := FirstById(u + front);
      FirstByIdPrefers(u, front);
      FirstByIdSpec(u + front);
      assert HasId(u, y.id) ==> HasId(acc, y.id) by {
        if HasId(u, y.id) {
          var i :| 0 <= i < |u| && u[i].id == y.id;
          assert (u + front)[i] == u[i];
        }
      }
    }
  }

  /** One more element of the input: kept when it passes the filter and
      its id is new (`putIfAbsent`). */
  lemma FirstByIdStep(xs: seq<Option<Activity>>, i: nat, keep: Activity -> bool)
    requires i < |xs|
    ensures var before := FirstById(Present(xs[..i], keep));
            FirstById(Present(xs[..i + 1], keep)) ==
              if xs[i].Some? && keep(xs[i].value) && !HasId(before, xs[i].value.id)
              then before + [xs[i].value] else before
  {
    assert xs[..i + 1][..i] == xs[..i];
    var p := Present(xs[..i], keep);
    if xs[i].Some? && keep(xs[i].value) {
      assert Present(xs[..i + 1], keep) == p + [xs[i].value];
      assert (p + [xs[i].value])[..|p|] == p;
    }
  }

  /** A total preorder: any two activities compare, and transitively. */
  ghost predicate TotalPreorder(leq: (Activity, Activity) -> bool) {
    (forall a, b :: leq(a, b) || leq(b, a)) &&
    (forall a, b, c :: leq(a, b) && leq(b, c) ==> leq(a, c))
  }

  predicate SortedBy(xs: seq<Activity>, leq: (Activity, Activity) -> bool) {
    forall i, j :: 0 <= i < j < |xs| ==> leq(xs[i], xs[j])
  }

  /** `x` placed after the last element not above it. */
  function Insert(x: Activity, s: seq<Activity>, leq: (Activity, Activity) -> bool): (r: seq<Activity>)
    ensures multiset(r) == multiset(s) + multiset{x}
    decreases |s|
  {
    if s == [] then [x]
    else if leq(s[|s| - 1], x) then s + [x]
    else
      LastSplit(s);
      Insert(x, s[..|s| - 1], leq) + [s[|s| - 1]]
  }

  /** `Stream.sorted` with a comparator: an insertion sort. */
  function SortBy(xs: seq<Activity>, leq: (Activity, Activity) -> bool): (r: seq<Activity>)
    ensures multiset(r) == multiset(xs)
  {
    if xs == [] then []
    else
      LastSplit(xs);
      Insert(xs[|xs| - 1], SortBy(xs[..|xs| - 1], leq), leq)
  }

  lemma SortedSnoc(s: seq<Activity>, x: Activity, leq: (Activity, Activity) -> bool)
    requires SortedBy(s, leq)
    requires forall y :: y in s ==> leq(y, x)
    ensures SortedBy(s + [x], leq)
  {
    forall i, j | 0 <= i < j < |s + [x]|
      ensures leq((s + [x])[i], (s + [x])[j])
    {
      assert (s + [x])[i] == s[i];
      if j == |s| {
        assert s[i] in s;
      } else {
        assert (s + [x])[j] == s[j];
      }
    }
  }

  lemma {:induction false} InsertSorted(x: Activity, s: seq<Activity>, leq: (Activity, Activity) -> bool)
    requires TotalPreorder(leq) && SortedBy(s, leq)
    ensures SortedBy(Insert(x, s, leq), leq)
    decreases |s|
  {
    if s != [] {
      var front, last := s[..|s| - 1], s[|s| - 1];
      if leq(last, x) {
        forall y | y in s
          ensures leq(y, x)
        {
          var i :| 0 <= i < |s| && s[i] == y;
          if i < |s| - 1 {
            assert leq(y, last);
          }
        }
        SortedSnoc(s, x, leq);
      } else {
        assert SortedBy(front, leq);
        InsertSorted(x, front, leq);
        var ins := Insert(x, front, leq);
        forall y | y in ins
          ensures leq(y, last)
        {
          assert y in multiset(ins);
          if y != x {
            assert y in multiset(front);
            var i :| 0 <= i < |front| && front[i] == y;
            assert s[i] == y;
          }
        }
        SortedSnoc(ins, last, leq);
      }
    }
  }

  /** Inserting an activity whose id is new keeps the ids distinct. */
  lemma {:induction false} InsertDistinct(x: Activity, s: seq<Activity>, leq: (Activity, Activity) -> bool)
    requires DistinctIds(s) && !HasId(s, x.id)
    ensures DistinctIds(Insert(x, s, leq))
    decreases |s|
  {
    if s != [] {
      var front, last := s[..|s| - 1], s[|s| - 1];
      if leq(last, x) {
        assert forall i :: 0 <= i < |s| ==> s[i].id != x.id;
      } else {
        assert DistinctIds(front);
        assert !HasId(front, x.id) by {
          forall i | 0 <= i < |front| ensures front[i].id != x.id {
            assert front[i] == s[i];
          }
        }
        InsertDistinct(x, front, leq);
        var ins := Insert(x, front, leq);
        forall i | 0 <= i < |ins|
          ensures ins[i].id != last.id
        {
          assert ins[i] in multiset(ins);
          if ins[i] != x {
            assert ins[i] in multiset(front);
            var k :| 0 <= k < |front| && front[k] == ins[i];
            assert s[k] == ins[i];
          } else {
            assert s[|s| - 1] == last;
          }
        }
      }
    }
  }

  /** The sort orders by `leq` and keeps distinct ids distinct. */
  lemma {:induction false} SortBySpec(xs: seq<Activity>, leq: (Activity, Activity) -> bool)
    requires TotalPreorder(leq)
    ensures SortedBy(SortBy(xs, leq), leq)
    ensures DistinctIds(xs) ==> DistinctIds(SortBy(xs, leq))
    decreases |xs|
  {
    if xs != [] {
      var front, last := xs[..|xs| - 1], xs[|xs| - 1];
      var sorted := SortBy(front, leq);
      SortBySpec(front, leq);
      InsertSorted(last, sorted, leq);
      if DistinctIds(xs) {
        assert DistinctIds(front);
        forall i | 0 <= i < |sorted|
          ensures sorted[i].id != last.id
        {
          assert sorted[i] in multiset(sorted);
          var k :| 0 <= k < |front| && front[k] == sorted[i];
          assert xs[k] == front[k];
        }
        InsertDistinct(last, sorted, leq);
      }
    }
  }

  /** Membership is what sorting keeps. */
  lemma SortByMembers(xs: seq<Activity>, leq: (Activity, Activity) -> bool, a: Activity)
    ensures a in SortBy(xs, leq) <==> a in xs
  {
    assert a in SortBy(xs, leq) <==> a in multiset(SortBy(xs, leq));
    assert a in xs <==> a in multiset(xs);
  }

  /** One activity per id, sorted: what both lists of activities are made
      of. */
  lemma UniqueSortedSpec(xs: seq<Activity>, leq: (Activity, Activity) -> bool)
    requires TotalPreorder(leq)
    ensures var r := SortBy(FirstById(xs), leq);
            DistinctIds(r) && SortedBy(r, leq) &&
            (forall a :: a in r <==> a in FirstById(xs)) &&
            (forall a :: a in r ==> a in xs) &&
            (forall i :: 0 <= i < |xs| ==> HasId(r, xs[i].id))
  {
    var unique := FirstById(xs);
    var r := SortBy(unique, leq);
    FirstByIdSpec(xs);
    SortBySpec(unique, leq);
    forall a ensures a in r <==> a in unique {
      SortByMembers(unique, leq, a);
    }
    forall i | 0 <= i < |xs|
      ensures HasId(r, xs[i].id)
    {
      var j :| 0 <= j < |unique| && unique[j].id == xs[i].id;
      assert unique[j] in r;
    }
  }

  // ---------------------------------------------------------------------
  // Calendar

  /** `nullsLast(naturalOrder())` on times. */
  predicate TimeLeq(a: Option<TimeOfDay>, b: Option<TimeOfDay>) {
    b.None? || (a.Some? && a.value <= b.value)
  }

  /** Order on dates; the calendar only sorts dated activities, so where an
      undated one would go is immaterial. */
  predicate DateOptBefore(a: Option<Date>, b: Option<Date>) {
    (a.None? && b.Some?) || (a.Some? && b.Some? && DateBefore(a.value, b.value))
  }

  /** By date, then by time with missing times last. */
  predicate CalendarLeq(x: Activity, y: Activity) {
    DateOptBefore(x.date, y.date) || (x.date == y.date && TimeLeq(x.time, y.time))
  }

  lemma CalendarOrderIsTotal()
    ensures TotalPreorder(CalendarLeq)
  {
    forall a: Date, b: Date | a != b
      ensures DateBefore(a, b) || DateBefore(b, a)
    {
    }
  }

  predicate OnCalendar(a: Activity) {
    a.id.Some? && a.date.Some?
  }

  /** `calendar` for a signed-in user: the authored activities, then the
      approved ones, those with an id and a date, one per id, sorted. */
  function CalendarActivities(authored: seq<Option<Activity>>, approved: seq<Option<Activity>>): seq<Activity> {
    SortBy(FirstById(Present(authored + approved, OnCalendar)), CalendarLeq)
  }

  /** The calendar lists each dated activity of the user once, the authored
      copy when the same id comes from both lists, in date and time order. */
  lemma CalendarSpec(authored: seq<Option<Activity>>, approved: seq<Option<Activity>>)
    ensures var r := CalendarActivities(authored, approved);
            var all := Present(authored + approved, OnCalendar);
            (forall a :: a in r ==> OnCalendar(a) && Some(a) in authored + approved) &&
            DistinctIds(r) &&
            SortedBy(r, CalendarLeq) &&
            (forall i :: 0 <= i < |all| ==> HasId(r, all[i].id)) &&
            (forall a :: a in r && HasId(Present(authored, OnCalendar), a.id) ==> Some(a) in authored)
  {
    var u, v := Present(authored, OnCalendar), Present(approved, OnCalendar);
    PresentAppend(authored, approved, OnCalendar);
    FirstByIdPrefers(u, v);
    CalendarOrderIsTotal();
    UniqueSortedSpec(u + v, CalendarLeq);
  }

  // ---------------------------------------------------------------------
  // Sidebar

  const SidebarLimit: nat := 6

  /** `nullsLast(reverseOrder())` on creation times: newest first. */
  predicate SidebarLeq(x: Activity, y: Activity) {
    y.createdAt.None? || (x.createdAt.Some? && x.createdAt.value >= y.createdAt.value)
  }

  lemma SidebarOrderIsTotal()
    ensures TotalPreorder(SidebarLeq)
  {
  }

  function InSidebar(current: ActivityId): Activity -> bool {
    (a: Activity) => a.id.Some? && a.id.value != current
  }

  /** `resolveSidebarActivities`: nothing for a visitor or an unknown user;
      otherwise the user's authored and approved activities other than the
      current one, one per id (the first met), newest first, at most six. */
  method ResolveSidebarActivities(current: ActivityId, authenticated: bool, user: Option<User>,
                                  authored: seq<Option<Activity>>, approved: seq<Option<Activity>>)
    returns (r: seq<Activity>)
    ensures !authenticated || user.None? ==> r == []
    ensures authenticated && user.Some? ==>
              r == Take(SortBy(FirstById(Present(authored + approved, InSidebar(current))), SidebarLeq), SidebarLimit)
  {
    if !authenticated || user.None? {
      return [];
    }
    var combined := authored + approved;
    var uniqueById: seq<Activity> := [];
    for i := 0 to |combined|
      invariant uniqueById == FirstById(Present(combined[..i], InSidebar(current)))
    {
      var activity := combined[i];
      FirstByIdStep(combined, i, InSidebar(current));
      if activity.None? || activity.value.id.None? || activity.value.id.value == current {
        continue;
      }
      if !HasId(uniqueById, activity.value.id) {
        uniqueById := uniqueById + [activity.value];
      }
    }
    assert combined[..|combined|] == combined;
    var sorted := SortBy(uniqueById, SidebarLeq);
    r := Take(sorted, SidebarLimit);
  }

  /** The sidebar never shows the current activity, shows each id once and
      at most six activities, newest first; every one it leaves out is no
      newer than every one it shows. */
  lemma SidebarSpec(current: ActivityId, authored: seq<Option<Activity>>, approved: seq<Option<Activity>>)
    ensures var unique := FirstById(Present(authored + approved, InSidebar(current)));
            var r := Take(SortBy(unique, SidebarLeq), SidebarLimit);
            |r| <= SidebarLimit &&
            (forall a :: a in r ==> a.id.Some? && a.id != Some(current) && Some(a) in authored + approved) &&
            DistinctIds(r) &&
            SortedBy(r, SidebarLeq) &&
            (forall x, y :: x in unique && x !in r && y in r ==> SidebarLeq(y, x))
  {
    var all := Present(authored + approved, InSidebar(current));
    var sorted := SortBy(FirstById(all), SidebarLeq);
    SidebarOrderIsTotal();
    UniqueSortedSpec(all, SidebarLeq);
    TakeOfSorted(sorted, SidebarLimit, SidebarLeq);
  }

  /** The first `n` of a sorted list are sorted, and none of the rest comes
      before any of them. */
  lemma TakeOfSorted(sorted: seq<Activity>, n: nat, leq: (Activity, Activity) -> bool)
    requires SortedBy(sorted, leq)
    ensures var r := Take(sorted, n);
            SortedBy(r, leq) &&
            (DistinctIds(sorted) ==> DistinctIds(r)) &&
            (forall a :: a in r ==> a in sorted) &&
            (forall x, y :: x in sorted && x !in r && y in r ==> leq(y, x))
  {
    var r := Take(sorted, n);
    forall x, y | x in sorted && x !in r && y in r
      ensures leq(y, x)
    {
      var i :| 0 <= i < |sorted| && sorted[i] == x;
      var j :| 0 <= j < |r| && r[j] == y;
      assert sorted[j] == y;
      assert i >= |r|;
    }
  }

  // ---------------------------------------------------------------------
  // Participation notice

  datatype Notice = Notice(message: string, kind: string)

  const PendingNotice: Notice := Notice("Cerere trimisa. Status: in asteptare.", "warning")
  const RejectedNotice: Notice := Notice("Cererea a fost respinsa.", "danger")
  const ExcludedNotice: Notice := Notice("Ai fost exclus din aceasta activitate.", "danger")
  const BlockedNotice: Notice := Notice("Nu poti participa la aceasta activitate.", "danger")
  const ApprovedNotice: Notice := Notice("Cererea a fost acceptata.", "success")
  const NoStatusNotice: Notice := Notice("Nu ai inca status de participare. Trimite o cerere.", "secondary")
  const SignInNotice: Notice := Notice("Autentifica-te pentru a trimite o cerere de participare.", "secondary")

  /** The notice a viewer gets and whether the approved notice counts as
      seen for the activity afterwards. */
  datatype NoticeOutcome = NoticeOutcome(notice: Option<Notice>, seen: bool)

  /** The notice on an activity's page for a viewer whose status is
      `status`, given whether the approved notice was already seen. */
  function ParticipationNotice(authenticated: bool, isCreator: bool, status: Option<ParticipationStatus>,
                               seen: bool): NoticeOutcome {
    if !authenticated then NoticeOutcome(Some(SignInNotice), seen)
    else if isCreator then NoticeOutcome(None, seen)
    else match status
      case Some(Pending) => NoticeOutcome(Some(PendingNotice), seen)
      case Some(Rejected) => NoticeOutcome(Some(RejectedNotice), false)
      case Some(Excluded) => NoticeOutcome(Some(ExcludedNotice), false)
      case Some(Blocked) => NoticeOutcome(Some(BlockedNotice), false)
      case Some(Approved) => if seen then NoticeOutcome(None, true) else NoticeOutcome(Some(ApprovedNotice), true)
      case None => NoticeOutcome(Some(NoStatusNotice), false)
  }

  /** The creator of an activity never gets a participation notice, and
      viewing the page does not touch the approved-notice flag. */
  lemma CreatorGetsNoNotice(status: Option<ParticipationStatus>, seen: bool)
    ensures ParticipationNotice(true, true, status, seen) == NoticeOutcome(None, seen)
  {
  }

  /** A participant sees the approved notice exactly when it was not seen,
      and after that view it counts as seen: of two approved views in a
      row, only the first can show it. */
  lemma ApprovedNoticeAtMostOnce(seen: bool)
    ensures var first := ParticipationNotice(true, false, Some(Approved), seen);
            (first.notice == Some(ApprovedNotice) <==> !seen) &&
            first.seen &&
            ParticipationNotice(true, false, Some(Approved), first.seen).notice == None
  {
  }

  /** A rejection, an exclusion, a block or the lack of any status clears
      the flag, so a later approval is announced again; a pending request
      leaves the flag as it was. */
  lemma LeavingClearsApprovedNotice(status: Option<ParticipationStatus>, seen: bool)
    ensures var o := ParticipationNotice(true, false, status, seen);
            (status in {Some(Rejected), Some(Excluded), Some(Blocked), None} ==>
               !o.seen && ParticipationNotice(true, false, Some(Approved), o.seen).notice == Some(ApprovedNotice)) &&
            (status == Some(Pending) ==> o.seen == seen)
  {
  }

  /** Every signed-in viewer who is not the creator gets a notice, except
      an approved participant who has already seen it. */
  lemma NoticeForEveryParticipant(status: Option<ParticipationStatus>, seen: bool)
    ensures ParticipationNotice(true, false, status, seen).notice.None? <==> status == Some(Approved) && seen
  {
  }

  /** A visitor is asked to sign in, whatever the flag. */
  lemma VisitorAskedToSignIn(isCreator: bool, status: Option<ParticipationStatus>, seen: bool)
    ensures ParticipationNotice(false, isCreator, status, seen) == NoticeOutcome(Some(SignInNotice), seen)
  {
  }

  /** The session's record of the activities whose approved notice was
      shown (`approved_notice_seen_activity_<id>` attributes). */
  class NoticeSession {
    var approvedNoticeSeen: set<ActivityId>

    constructor()
      ensures approvedNoticeSeen == {}
    {
      approvedNoticeSeen := {};
    }

    /** The participation part of `activityDetail`: computes the notice,
        updates the flag of this activity only, and lets a message and a
        type carried over from a redirect win over the computed ones. */
    method ShowParticipationNotice(id: ActivityId, authenticated: bool, isCreator: bool,
                                   status: Option<ParticipationStatus>,
                                   flashMessage: Option<string>, flashType: Option<string>)
      returns (message: Option<string>, kind: Option<string>)
      modifies this
      ensures var o := ParticipationNotice(authenticated, isCreator, status, id in old(approvedNoticeSeen));
              (id in approvedNoticeSeen <==> o.seen) &&
              approvedNoticeSeen - {id} == old(approvedNoticeSeen) - {id} &&
              message == (if flashMessage.Some? then flashMessage
                          else if o.notice.Some? then Some(o.notice.value.message) else None) &&
              kind == (if flashType.Some? then flashType
                       else if o.notice.Some? then Some(o.notice.value.kind) else None)
    {
      var notice: Option<Notice> := None;
      if authenticated {
        if !isCreator {
          if status == Some(Pending) {
            notice := Some(PendingNotice);
          } else if status == Some(Rejected) {
            notice := Some(RejectedNotice);
            approvedNoticeSeen := approvedNoticeSeen - {id};
          } else if status == Some(Excluded) {
            notice := Some(ExcludedNotice);
            approvedNoticeSeen := approvedNoticeSeen - {id};
          } else if status == Some(Blocked) {
            notice := Some(BlockedNotice);
            approvedNoticeSeen := approvedNoticeSeen - {id};
          } else if status == Some(Approved) {
            if id !in approvedNoticeSeen {
              notice := Some(ApprovedNotice);
              approvedNoticeSeen := approvedNoticeSeen + {id};
            }
          } else if status == None {
            notice := Some(NoStatusNotice);
            approvedNoticeSeen := approvedNoticeSeen - {id};
          }
        }
      } else {
        notice := Some(SignInNotice);
      }
      message := if flashMessage.Some? then flashMessage else if notice.Some? then Some(notice.value.message) else None;
      kind := if flashType.Some? then flashType else if notice.Some? then Some(notice.value.kind) else None;
    }
  }
}
