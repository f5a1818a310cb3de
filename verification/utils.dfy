/** The pure string and time helpers used by the answer card: text
    truncation, the relative-time label, and the badge colour and icon of an
    authority level. The clock and the locale date formatter are parameters. */
module Utils {
  import opened Domain
  import opened Decimal

  /** `s.slice(0, end)`: a negative end counts back from the end of the
      string, and an end past the length stops at the length. */
  function SliceTo(s: string, end: int): (r: string)
    ensures |r| <= |s|
    ensures 0 <= end <= |s| ==> r == s[..end]
    ensures end < 0 ==> |r| == if |s| + end < 0 then 0 else |s| + end
    ensures r == s[..|r|]
  {
    if end < 0 then (if |s| + end < 0 then [] else s[..|s| + end])
    else if end <= |s| then s[..end]
    else s
  }

  /** The text itself when it fits in maxLength characters, otherwise the
      slice up to maxLength followed by an ellipsis. */
  function TruncateText(text: string, maxLength: int): (r: string)
    ensures |text| <= maxLength ==> r == text
    ensures 0 <= maxLength < |text| ==> r == text[..maxLength] + "..." && |r| == maxLength + 3
    ensures maxLength < 0 ==> var k := if |text| + maxLength < 0 then 0 else |text| + maxLength;
                              r == text[..k] + "..."
  {
    if |text| <= maxLength then text else SliceTo(text, maxLength) + "..."
  }

  /** For a non-negative bound the result never exceeds the bound by more
      than the ellipsis, and always begins with the text's first
      min(maxLength, |text|) characters. */
  lemma TruncateKeepsPrefix(text: string, maxLength: nat)
    ensures |TruncateText(text, maxLength)| <= maxLength + 3
    ensures var k := if maxLength < |text| then maxLength else |text|;
            TruncateText(text, maxLength)[..k] == text[..k]
  {
  }

  /** The bucket a time difference falls in, with its numeral. */
  datatype RelativeTime = JustNow | MinutesAgo(minutes: nat) | HoursAgo(hours: nat) | DaysAgo(days: nat) | OnDate

  /** Whole seconds from `date` to `now`, both in milliseconds, rounded
      down. The divisor is positive, so Dafny's Euclidean division is the
      floor division of `Math.floor`, also for a date in the future. */
  function ElapsedSeconds(now: int, date: int): (d: int)
    ensures d * 1000 <= now - date < (d + 1) * 1000
  {
    (now - date) / 1000
  }

  function Bucket(diff: int): (b: RelativeTime)
    ensures b == JustNow <==> diff < 60
    ensures b.MinutesAgo? <==> 60 <= diff < 3600
    ensures b.HoursAgo? <==> 3600 <= diff < 86400
    ensures b.DaysAgo? <==> 86400 <= diff < 2592000
    ensures b == OnDate <==> 2592000 <= diff
    ensures b.MinutesAgo? ==> 1 <= b.minutes <= 59 && b.minutes * 60 <= diff < (b.minutes + 1) * 60
    ensures b.HoursAgo? ==> 1 <= b.hours <= 23 && b.hours * 3600 <= diff < (b.hours + 1) * 3600
    ensures b.DaysAgo? ==> 1 <= b.days <= 29 && b.days * 86400 <= diff < (b.days + 1) * 86400
  {
    if diff < 60 then JustNow
    else if diff < 3600 then MinutesAgo(diff / 60)
    else if diff < 86400 then HoursAgo(diff / 3600)
    else if diff < 2592000 then DaysAgo(diff / 86400)
    else OnDate
  }

  function Render(b: RelativeTime, formatted: string): string {
    match b
    case JustNow => "Just now"
    case MinutesAgo(n) => NatToString(n) + "m ago"
    case HoursAgo(n) => NatToString(n) + "h ago"
    case DaysAgo(n) => NatToString(n) + "d ago"
    case OnDate => formatted
  }

  /** The label for a creation time `date` seen at time `now` (milliseconds);
      `formatDate` is the locale formatter used past thirty days; before
      that the label is "Just now" or a count followed by " ago". */
  function FormatRelativeTime(now: int, date: int, formatDate: int -> string): (r: string)
    ensures 2592000000 <= now - date ==> r == formatDate(date)
    ensures now - date < 2592000000 ==> r == "Just now" || (|r| >= 6 && r[|r| - 4..] == " ago")
  {
    Render(Bucket(ElapsedSeconds(now, date)), formatDate(date))
  }

  /** A date in the future, or less than a minute old, reads "Just now". */
  lemma FutureDateIsJustNow(now: int, date: int, formatDate: int -> string)
    requires now - date < 60000
    ensures FormatRelativeTime(now, date, formatDate) == "Just now"
  {
  }

  /** Within the minute bucket the label is the whole number of minutes,
      which reads back as that number. */
  lemma MinutesLabel(now: int, date: int, formatDate: int -> string)
    requires 60000 <= now - date < 3600000
    ensures var n := (now - date) / 60000;
            1 <= n <= 59 && FormatRelativeTime(now, date, formatDate) == NatToString(n) + "m ago"
            && ParseDigits(NatToString(n)) == n
  {
    var d := ElapsedSeconds(now, date);
    assert d / 60 == (now - date) / 60000;
    ParseNatToString(d / 60);
  }

  /** Within the hour bucket the label is the whole number of hours,
      which reads back as that number. */
  lemma HoursLabel(now: int, date: int, formatDate: int -> string)
    requires 3600000 <= now - date < 86400000
    ensures var n := (now - date) / 3600000;
            1 <= n <= 23 && FormatRelativeTime(now, date, formatDate) == NatToString(n) + "h ago"
            && ParseDigits(NatToString(n)) == n
  {
    var d := ElapsedSeconds(now, date);
    assert d / 3600 == (now - date) / 3600000;
    ParseNatToString(d / 3600);
  }

  /** Within the day bucket the label is the whole number of days,
      which reads back as that number. */
  lemma DaysLabel(now: int, date: int, formatDate: int -> string)
    requires 86400000 <= now - date < 2592000000
    ensures var n := (now - date) / 86400000;
            1 <= n <= 29 && FormatRelativeTime(now, date, formatDate) == NatToString(n) + "d ago"
            && ParseDigits(NatToString(n)) == n
  {
    var d := ElapsedSeconds(now, date);
    assert d / 86400 == (now - date) / 86400000;
    ParseNatToString(d / 86400);
  }

  const DefaultColor: string := "bg-muted text-white"
  const DefaultIcon: string := "\U{1F4C4}"

  /** The badge class for an authority name; unknown names get the default. */
  function AuthorityColor(authority: string): (c: string)
    ensures c == DefaultColor <==> ParseAuthority(authority).None?
  {
    if authority == "OFFICIAL" then "badge-official"
    else if authority == "SCHOLARLY" then "badge-scholarly"
    else if authority == "PRESS" then "badge-press"
    else if authority == "CLAIM" then "badge-claim"
    else if authority == "COMMUNITY" then "badge-community"
    else DefaultColor
  }

  /** The icon for an authority name; unknown names get the default. */
  function AuthorityIcon(authority: string): (i: string)
    ensures i == DefaultIcon <==> ParseAuthority(authority).None?
  {
    if authority == "OFFICIAL" then "\U{1F3DB}\U{FE0F}"
    else if authority == "SCHOLARLY" then "\U{1F4DA}"
    else if authority == "PRESS" then "\U{1F4F0}"
    else if authority == "CLAIM" then "\U{26A0}\U{FE0F}"
    else if authority == "COMMUNITY" then "\U{1F465}"
    else DefaultIcon
  }

  /** The five levels get five different colours and five different icons,
      none of them the default; every other string gets the defaults. */
  lemma AuthorityBadgesDistinct(a: AuthorityLevel, b: AuthorityLevel, other: string)
    requires ParseAuthority(other).None?
    ensures AuthorityColor(AuthorityName(a)) == AuthorityColor(AuthorityName(b)) <==> a == b
    ensures AuthorityIcon(AuthorityName(a)) == AuthorityIcon(AuthorityName(b)) <==> a == b
    ensures AuthorityColor(AuthorityName(a)) != DefaultColor && AuthorityIcon(AuthorityName(a)) != DefaultIcon
    ensures AuthorityColor(other) == DefaultColor && AuthorityIcon(other) == DefaultIcon
  {
  }
}
