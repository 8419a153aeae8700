/** The lock and user records fetched from chaster.app, the eligibility test a
    lock must pass to be listed, and the projection of a lock onto the
    configured table columns. */
module Chaster {
  import opened Wrappers
  import opened Strings
  import opened Decimal

  /** A keyholder, with the fields the browser uses. */
  datatype User = User(id: string, name: string, findom: bool, gender: string,
                       discord: Option<string>, suspended: bool)

  /** A public lock, with the fields the browser uses; `maxtime` is the
      longest possible lock time in seconds, if there is one. */
  datatype Lock = Lock(id: string, name: string, desc: string, maxtime: Option<int>,
                       passwordNeeded: bool, keyholder: User)

  /** The user object of the chaster.app API. */
  datatype UserJson = UserJson(id: string, username: string, isFindom: bool, gender: Option<string>,
                               discordUsername: Option<string>, isSuspendedOrDisabled: bool)

  /** The lock object of the chaster.app API. */
  datatype LockJson = LockJson(id: string, maxLimitDuration: Option<int>, maxLimitDate: Option<string>,
                               name: string, description: string, requirePassword: bool, user: UserJson)

  /** The `[criteria.links]` options. */
  datatype Links = Links(showLinkedTitles: bool, showLinkedDescriptions: bool, showDescStartswithLink: bool)

  /** The `[criteria.blacklists]` options. */
  datatype Blacklists = Blacklists(users: seq<string>, keywords: seq<string>, keyholderGenders: seq<string>)

  /** The `[criteria]` options. */
  datatype Criteria = Criteria(minimumDescriptionLength: int, showFindom: bool, maxMaxTime: int,
                               showSuspendedKeyholders: bool, requireConnectedDiscord: bool,
                               links: Links, blacklists: Blacklists)

  /** The columns a lock can be shown in. */
  datatype ColumnName =
    | MaxTime | PasswordNeeded | Name | Description | DescriptionLen
    | LinkColumn | LockId | KeyholderName | KeyholderGender | Discord

  /** The placeholder genders that mean "no gender given". */
  predicate IsPlaceholderGender(g: string)
  {
    g == "" || g == "Not specified"
  }

  /** The gender normalisation of `ChasterUser.from_json`: a missing gender,
      or one that strips to nothing or to "Not specified", becomes the empty
      string; any other gender is kept exactly, surrounding whitespace
      included. */
  function NormalizeGender(gender: Option<string>): (r: string)
    ensures r == "" || (gender.Some? && r == gender.value)
    ensures r != "" ==> !IsPlaceholderGender(Strip(r))
    ensures gender.Some? && !IsPlaceholderGender(Strip(gender.value)) ==> r == gender.value
  {
    if gender.None? || IsPlaceholderGender(Strip(gender.value)) then "" else gender.value
  }

  /** Normalising a normalised gender changes nothing. */
  lemma NormalizeGenderIdempotent(gender: Option<string>)
    ensures NormalizeGender(Some(NormalizeGender(gender))) == NormalizeGender(gender)
  {
    var r := NormalizeGender(gender);
    if r == "" {
      StripUnchanged("");
    }
  }

  /** Padding a placeholder with whitespace does not hide it. */
  lemma NormalizePaddedPlaceholder(m: int, n: int)
    ensures NormalizeGender(Some(Repeat(' ', m) + "Not specified" + Repeat(' ', n))) == ""
  {
    var p := "Not specified";
    assert !IsSpace(p[0]) && !IsSpace(p[|p| - 1]);
    StripSurrounded(Repeat(' ', m), p, Repeat(' ', n));
    assert IsPlaceholderGender(Strip(Repeat(' ', m) + p + Repeat(' ', n)));
  }

  /** `ChasterUser.from_json`. */
  function UserFromJson(data: UserJson): (u: User)
    ensures u.gender == NormalizeGender(data.gender)
    ensures u.id == data.id && u.name == data.username && u.findom == data.isFindom
    ensures u.discord == data.discordUsername && u.suspended == data.isSuspendedOrDisabled
  {
    User(data.id, data.username, data.isFindom, NormalizeGender(data.gender),
         data.discordUsername, data.isSuspendedOrDisabled)
  }

  /** Python truthiness of an optional count: present and non-zero. */
  predicate TruthyInt(x: Option<int>)
  {
    x.Some? && x.value != 0
  }

  /** Python truthiness of an optional string: present and non-empty. */
  predicate TruthyString(x: Option<string>)
  {
    x.Some? && x.value != ""
  }

  /** `ChasterLock.from_json`. A non-zero duration limit is the maximum time;
      failing that a limit date gives `secondsUntilDate`, the whole seconds
      from now until that date, which the caller measures; failing both
      there is no maximum time. */
  function LockFromJson(data: LockJson, secondsUntilDate: int): (l: Lock)
    ensures TruthyInt(data.maxLimitDuration) ==> l.maxtime == data.maxLimitDuration
    ensures !TruthyInt(data.maxLimitDuration) && TruthyString(data.maxLimitDate) ==> l.maxtime == Some(secondsUntilDate)
    ensures l.maxtime.None? <==> !TruthyInt(data.maxLimitDuration) && !TruthyString(data.maxLimitDate)
    ensures l.keyholder == UserFromJson(data.user)
    ensures l.id == data.id && l.name == data.name && l.desc == data.description
    ensures l.passwordNeeded == data.requirePassword
  {
    var maxtime :=
      if TruthyInt(data.maxLimitDuration) then data.maxLimitDuration
      else if TruthyString(data.maxLimitDate) then Some(secondsUntilDate)
      else None;
    Lock(data.id, data.name, data.description, maxtime, data.requirePassword, UserFromJson(data.user))
  }

  /** Python's `x in map(str.casefold, xs)`: the folded `x` is among the
      folded entries. */
  predicate InFolded(x: string, xs: seq<string>)
    decreases |xs|
  {
    xs != [] && (CaseFold(xs[0]) == CaseFold(x) || InFolded(x, xs[1..]))
  }

  /** Membership after folding holds exactly when some entry equals `x` up
      to case. */
  lemma {:induction false} InFoldedExists(x: string, xs: seq<string>)
    ensures InFolded(x, xs) <==> exists i :: 0 <= i < |xs| && CaseFold(xs[i]) == CaseFold(x)
    decreases |xs|
  {
    if xs != [] {
      InFoldedExists(x, xs[1..]);
      if CaseFold(xs[0]) != CaseFold(x) && exists i :: 0 <= i < |xs| && CaseFold(xs[i]) == CaseFold(x) {
        var i :| 0 <= i < |xs| && CaseFold(xs[i]) == CaseFold(x);
        assert xs[1..][i - 1] == xs[i];
      }
    }
  }

  /** The keyword test for one word: the word occurs in the name up to case,
      or occurs in the description exactly as written. */
  predicate KeywordMatches(word: string, name: string, desc: string)
  {
    Contains(CaseFold(name), CaseFold(word)) || Contains(desc, word)
  }

  /** Python's `any(...)` over the keyword blacklist. */
  predicate AnyKeyword(words: seq<string>, name: string, desc: string)
    decreases |words|
  {
    words != [] && (KeywordMatches(words[0], name, desc) || AnyKeyword(words[1..], name, desc))
  }

  /** `any` holds exactly when some keyword matches. */
  lemma {:induction false} AnyKeywordExists(words: seq<string>, name: string, desc: string)
    ensures AnyKeyword(words, name, desc) <==> exists i :: 0 <= i < |words| && KeywordMatches(words[i], name, desc)
    decreases |words|
  {
    if words != [] {
      AnyKeywordExists(words[1..], name, desc);
      if !KeywordMatches(words[0], name, desc) && exists i :: 0 <= i < |words| && KeywordMatches(words[i], name, desc) {
        var i :| 0 <= i < |words| && KeywordMatches(words[i], name, desc);
        assert words[1..][i - 1] == words[i];
      }
    }
  }

  /** The chained comparison `maxtime > max_max_time > 0`, or no maximum at
      all while a maximum is required. */
  predicate MaxTimeRejected(maxtime: Option<int>, maxMaxTime: int)
  {
    (maxtime.Some? && maxtime.value > maxMaxTime && maxMaxTime > 0)
    || (maxtime.None? && maxMaxTime > 0)
  }

  /** The clauses of the first condition of `invalid`, in source order. */
  predicate FailsCriteria(lock: Lock, criteria: Criteria)
  {
    || |lock.desc| < criteria.minimumDescriptionLength
    || (!criteria.showFindom && lock.keyholder.findom)
    || MaxTimeRejected(lock.maxtime, criteria.maxMaxTime)
    || (!criteria.links.showLinkedTitles && Contains(lock.name, "chaster.app"))
    || (!criteria.links.showLinkedDescriptions && Contains(CaseFold(lock.desc), "chaster.app"))
    || (!criteria.links.showDescStartswithLink && StartsWith(CaseFold(lock.desc), "https://chaster.app"))
    || InFolded(lock.keyholder.name, criteria.blacklists.users)
    || InFolded(lock.keyholder.gender, criteria.blacklists.keyholderGenders)
    || (!criteria.showSuspendedKeyholders && lock.keyholder.suspended)
    || (criteria.requireConnectedDiscord && !TruthyString(lock.keyholder.discord))
  }

  /** `ChasterLock.invalid`: whether a lock is to be hidden under the given
      criteria. A too-short description, a maximum time over a positive
      limit or none at all, a blacklisted keyholder name or gender (compared
      up to case) and a blacklisted keyword each hide the lock; with every
      filter switched off no lock is hidden. */
  function Invalid(lock: Lock, criteria: Criteria): (r: bool)
    ensures |lock.desc| < criteria.minimumDescriptionLength ==> r
    ensures criteria.maxMaxTime > 0 && (lock.maxtime.None? || lock.maxtime.value > criteria.maxMaxTime) ==> r
    ensures r <==> (FailsCriteria(lock, criteria)
      || exists i :: 0 <= i < |criteria.blacklists.keywords|
           && KeywordMatches(criteria.blacklists.keywords[i], lock.name, lock.desc))
  {
    AnyKeywordExists(criteria.blacklists.keywords, lock.name, lock.desc);
    FailsCriteria(lock, criteria) || AnyKeyword(criteria.blacklists.keywords, lock.name, lock.desc)
  }

  /** A keyholder blacklisted by name or gender, up to case, is hidden. */
  lemma BlacklistedKeyholderInvalid(lock: Lock, criteria: Criteria, i: int)
    requires
      || (0 <= i < |criteria.blacklists.users|
          && CaseFold(criteria.blacklists.users[i]) == CaseFold(lock.keyholder.name))
      || (0 <= i < |criteria.blacklists.keyholderGenders|
          && CaseFold(criteria.blacklists.keyholderGenders[i]) == CaseFold(lock.keyholder.gender))
    ensures Invalid(lock, criteria)
  {
    InFoldedExists(lock.keyholder.name, criteria.blacklists.users);
    InFoldedExists(lock.keyholder.gender, criteria.blacklists.keyholderGenders);
  }

  /** A blacklisted keyword hides the lock. */
  lemma BlacklistedKeywordInvalid(lock: Lock, criteria: Criteria, i: int)
    requires 0 <= i < |criteria.blacklists.keywords|
    requires KeywordMatches(criteria.blacklists.keywords[i], lock.name, lock.desc)
    ensures Invalid(lock, criteria)
  {
  }

  /** Renaming a keyholder by case only never changes whether the lock is
      hidden. */
  lemma KeyholderCaseInsensitive(lock: Lock, criteria: Criteria, name: string, gender: string)
    requires CaseFold(name) == CaseFold(lock.keyholder.name)
    requires CaseFold(gender) == CaseFold(lock.keyholder.gender)
    ensures Invalid(lock.(keyholder := lock.keyholder.(name := name, gender := gender)), criteria)
         == Invalid(lock, criteria)
  {
    var other := lock.(keyholder := lock.keyholder.(name := name, gender := gender));
    InFoldedExists(name, criteria.blacklists.users);
    InFoldedExists(lock.keyholder.name, criteria.blacklists.users);
    InFoldedExists(gender, criteria.blacklists.keyholderGenders);
    InFoldedExists(lock.keyholder.gender, criteria.blacklists.keyholderGenders);
    assert FailsCriteria(other, criteria) == FailsCriteria(lock, criteria);
  }

  /** Without a positive maximum-time limit the lock's maximum time plays no
      part. */
  lemma MaxTimeIgnoredWithoutLimit(lock: Lock, criteria: Criteria, maxtime: Option<int>)
    requires criteria.maxMaxTime <= 0
    ensures Invalid(lock.(maxtime := maxtime), criteria) == Invalid(lock, criteria)
  {
  }

  /** Blacklisting more users, genders or keywords never shows a lock that
      was hidden. */
  lemma BlacklistMonotone(lock: Lock, criteria: Criteria, more: Blacklists)
    requires forall s :: s in criteria.blacklists.users ==> s in more.users
    requires forall s :: s in criteria.blacklists.keyholderGenders ==> s in more.keyholderGenders
    requires forall s :: s in criteria.blacklists.keywords ==> s in more.keywords
    requires Invalid(lock, criteria)
    ensures Invalid(lock, criteria.(blacklists := more))
  {
    var bigger := criteria.(blacklists := more);
    var bl := criteria.blacklists;
    InFoldedExists(lock.keyholder.name, bl.users);
    InFoldedExists(lock.keyholder.name, more.users);
    InFoldedExists(lock.keyholder.gender, bl.keyholderGenders);
    InFoldedExists(lock.keyholder.gender, more.keyholderGenders);
    AnyKeywordExists(bl.keywords, lock.name, lock.desc);
    AnyKeywordExists(more.keywords, lock.name, lock.desc);
    if InFolded(lock.keyholder.name, bl.users) {
      var i :| 0 <= i < |bl.users| && CaseFold(bl.users[i]) == CaseFold(lock.keyholder.name);
      assert bl.users[i] in more.users;
    }
    if InFolded(lock.keyholder.gender, bl.keyholderGenders) {
      var i :| 0 <= i < |bl.keyholderGenders| && CaseFold(bl.keyholderGenders[i]) == CaseFold(lock.keyholder.gender);
      assert bl.keyholderGenders[i] in more.keyholderGenders;
    }
    if AnyKeyword(bl.keywords, lock.name, lock.desc) {
      var i :| 0 <= i < |bl.keywords| && KeywordMatches(bl.keywords[i], lock.name, lock.desc);
      assert bl.keywords[i] in more.keywords;
    }
  }

  /** The criteria that filter nothing. */
  function Permissive(): (c: Criteria)
    ensures c.blacklists.users == [] && c.blacklists.keywords == [] && c.blacklists.keyholderGenders == []
    ensures c.minimumDescriptionLength == 0 && c.maxMaxTime == 0
  {
    Criteria(0, true, 0, true, false, Links(true, true, true), Blacklists([], [], []))
  }

  /** Under the criteria that filter nothing, every lock is shown. */
  lemma PermissiveShowsAll(lock: Lock)
    ensures !Invalid(lock, Permissive())
  {
  }

  /** Only the folded name takes part in keyword matching: two names equal up
      to case match the same keywords, and folding the name first changes
      nothing. */
  lemma KeywordNameCaseInsensitive(word: string, name: string, other: string, desc: string)
    requires CaseFold(name) == CaseFold(other)
    ensures KeywordMatches(word, name, desc) <==> KeywordMatches(word, other, desc)
    ensures KeywordMatches(word, CaseFold(name), desc) <==> KeywordMatches(word, name, desc)
  {
    CaseFoldIdempotent(name);
  }

  /** A keyword written at any offset of the description hides the lock. */
  lemma KeywordInDescriptionInvalid(lock: Lock, criteria: Criteria, i: int, k: int)
    requires 0 <= i < |criteria.blacklists.keywords|
    requires OccursAt(lock.desc, criteria.blacklists.keywords[i], k)
    ensures Invalid(lock, criteria)
  {
    var word := criteria.blacklists.keywords[i];
    ContainsExists(lock.desc, word);
    assert KeywordMatches(word, lock.name, lock.desc);
  }

  /** Keywords match the name regardless of case but the description only as
      written: "spam" hides a lock named "SPAM" but not one whose description
      reads "SPAM". */
  lemma KeywordCaseAsymmetry()
    ensures KeywordMatches("spam", "SPAM", "")
    ensures !KeywordMatches("spam", "", "SPAM")
  {
    assert CaseFold("SPAM") == "spam";
    assert StartsWith("spam", "spam");
    assert "SPAM"[..4] == "SPAM" && "SPAM"[0] != "spam"[0];
    assert !StartsWith("SPAM", "spam");
    assert "SPAM"[1..] == "PAM";
    assert !StartsWith("PAM", "spam");
    assert "PAM"[1..] == "AM";
    assert "AM"[1..] == "M";
    assert "M"[1..] == "";
  }

  const SecondsPerDay: int := 60 * 60 * 24
  const SecondsPerHour: int := 60 * 60
  const SecondsPerMinute: int := 60

  /** The unit `format_max_time` shows a time of `seconds` in, with its
      suffix. */
  function TimeUnit(seconds: int): (unit: (int, char))
    ensures unit.0 > 0
    ensures seconds >= SecondsPerDay ==> unit == (SecondsPerDay, 'd')
    ensures SecondsPerHour <= seconds < SecondsPerDay ==> unit == (SecondsPerHour, 'h')
    ensures seconds < SecondsPerHour ==> unit == (SecondsPerMinute, 'm')
  {
    if seconds >= SecondsPerDay then (SecondsPerDay, 'd')
    else if seconds >= SecondsPerHour then (SecondsPerHour, 'h')
    else (SecondsPerMinute, 'm')
  }

  /** `format_max_time`: "None" when there is no maximum time or it is zero;
      otherwise the time rounded half-to-even in the largest of days, hours
      and minutes it reaches, followed by the unit letter. The number shown
      is written without leading zeros and reads back as a count within half a unit of the true time, and is at
      least one whenever the time reaches the unit. */
  function FormatMaxTime(maxtime: Option<int>): (r: string)
    ensures r == "None" <==> !TruthyInt(maxtime)
    ensures TruthyInt(maxtime) ==>
      var (unit, suffix) := TimeUnit(maxtime.value);
      && |r| >= 2
      && r[|r| - 1] == suffix
      && Canonical(r[..|r| - 1])
      && ParseDecimal(r[..|r| - 1]).Some?
      && 2 * Abs(maxtime.value - ParseDecimal(r[..|r| - 1]).value * unit) <= unit
      && (maxtime.value >= unit ==> ParseDecimal(r[..|r| - 1]).value >= 1)
  {
    if !TruthyInt(maxtime) then "None"
    else
      var (unit, suffix) := TimeUnit(maxtime.value);
      RoundedAtLeastOne(maxtime.value, unit);
      CountWithUnit(RoundHalfEven(maxtime.value, unit), suffix)
  }

  /** A count followed by a unit letter; the count reads back from all but
      the last character. */
  function CountWithUnit(n: int, suffix: char): (r: string)
    ensures |r| >= 2 && r[|r| - 1] == suffix
    ensures ParseDecimal(r[..|r| - 1]) == Some(n)
    ensures Canonical(r[..|r| - 1])
  {
    var digits := IntToDecimal(n);
    ParseIntToDecimal(n);
    assert (digits + [suffix])[..|digits|] == digits;
    digits + [suffix]
  }

  /** A time of at least one unit rounds to at least one unit. */
  lemma RoundedAtLeastOne(m: int, unit: int)
    requires unit > 0
    ensures m >= unit ==> RoundHalfEven(m, unit) >= 1
  {
    var n := RoundHalfEven(m, unit);
    NonPositiveMultiple(n, unit);
  }

  lemma NonPositiveMultiple(n: int, unit: int)
    requires unit > 0
    ensures n <= 0 ==> n * unit <= 0
  {
  }

  /** The shown count is the unique nearest count, ties going to the even
      one: any count within half a unit, even on a tie, is the one shown. */
  lemma FormatMaxTimeNearest(m: int, k: int)
    requires m != 0
    requires 2 * Abs(m - k * TimeUnit(m).0) <= TimeUnit(m).0
    requires 2 * Abs(m - k * TimeUnit(m).0) == TimeUnit(m).0 ==> k % 2 == 0
    ensures FormatMaxTime(Some(m)) == IntToDecimal(k) + [TimeUnit(m).1]
  {
    RoundHalfEvenUnique(m, TimeUnit(m).0, k);
  }

  /** `link`: the lock's page on chaster.app. */
  const ExplorePrefix: string := "https://chaster.app/explore/"

  function Link(lock: Lock): (r: string)
    ensures StartsWith(r, ExplorePrefix)
    ensures |r| == |ExplorePrefix| + |lock.id|
  {
    ExplorePrefix + lock.id
  }

  /** The lock id a link points to, if it is a lock link. */
  function LockIdFromLink(url: string): (r: Option<string>)
    ensures r.Some? <==> StartsWith(url, ExplorePrefix)
    ensures r.Some? ==> url == ExplorePrefix + r.value
  {
    if StartsWith(url, ExplorePrefix) then Some(url[|ExplorePrefix|..]) else None
  }

  /** A link leads back to its lock's id. */
  lemma LinkRoundTrip(lock: Lock)
    ensures LockIdFromLink(Link(lock)) == Some(lock.id)
  {
    assert Link(lock)[|ExplorePrefix|..] == lock.id;
  }

  /** A lock whose description begins with a lock link is hidden when such
      descriptions are not to be shown. */
  lemma DescriptionLinkInvalid(lock: Lock, criteria: Criteria, other: Lock)
    requires StartsWith(lock.desc, Link(other))
    requires !criteria.links.showDescStartswithLink
    ensures Invalid(lock, criteria)
  {
    var p := "https://chaster.app";
    assert Link(other)[..|p|] == p;
    assert lock.desc[..|p|] == p;
    CaseFoldLower(p);
    CaseFoldPrefix(lock.desc, |p|);
  }

  /** One cell of `to_list`, keyed by column. */
  function Cell(lock: Lock, column: ColumnName): (r: string)
    ensures column == PasswordNeeded ==> (r == "*" <==> lock.passwordNeeded) && (r == "*" || r == " ")
    ensures column == DescriptionLen ==> ParseDecimal(r) == Some(|lock.desc|) && Canonical(r)
    ensures column == Discord ==> (r == "" <==> !TruthyString(lock.keyholder.discord))
    ensures column == LinkColumn ==> LockIdFromLink(r) == Some(lock.id)
    ensures column == MaxTime ==> r == FormatMaxTime(lock.maxtime)
    ensures column == Name ==> r == lock.name
    ensures column == Description ==> r == lock.desc
    ensures column == LockId ==> r == lock.id
    ensures column == KeyholderName ==> r == lock.keyholder.name
    ensures column == KeyholderGender ==> r == lock.keyholder.gender
    ensures column == Discord && TruthyString(lock.keyholder.discord) ==> r == lock.keyholder.discord.value
  {
    match column
    case MaxTime => FormatMaxTime(lock.maxtime)
    case PasswordNeeded => if lock.passwordNeeded then "*" else " "
    case Name => lock.name
    case Description => lock.desc
    case DescriptionLen => ParseIntToDecimal(|lock.desc|); IntToDecimal(|lock.desc|)
    case LinkColumn => LinkRoundTrip(lock); Link(lock)
    case LockId => lock.id
    case KeyholderName => lock.keyholder.name
    case KeyholderGender => lock.keyholder.gender
    case Discord => if TruthyString(lock.keyholder.discord) then lock.keyholder.discord.value else ""
  }

  /** `to_list`: one cell per requested column, in the requested order. */
  function ToList(lock: Lock, columns: seq<ColumnName>): (row: seq<string>)
    ensures |row| == |columns|
    ensures forall i :: 0 <= i < |columns| ==> row[i] == Cell(lock, columns[i])
  {
    if columns == [] then []
    else ToList(lock, columns[..|columns| - 1]) + [Cell(lock, columns[|columns| - 1])]
  }

  /** Asking for two column lists in turn gives the two rows side by side. */
  lemma ToListAppend(lock: Lock, a: seq<ColumnName>, b: seq<ColumnName>)
    ensures ToList(lock, a + b) == ToList(lock, a) + ToList(lock, b)
  {
  }

  /** A lock whose maximum time is zero passes the maximum-time filter, yet
      is shown as having none, the same as a lock without a maximum. */
  lemma ZeroMaxTimeShownAsNone(lock: Lock, criteria: Criteria)
    requires lock.maxtime == Some(0)
    ensures !MaxTimeRejected(lock.maxtime, criteria.maxMaxTime)
    ensures Cell(lock, MaxTime) == Cell(lock.(maxtime := None), MaxTime)
  {
  }
}
