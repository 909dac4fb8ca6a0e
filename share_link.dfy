/**
 * The share link shown in the link row: a fixed prefix, the time literal when "Include
 * Time" is ticked, `&date=` and the date literal when "Include Date" is ticked. Neither
 * literal is checked or escaped.
 */
module ShareLink {
  import opened Wrappers
  import Clock

  const Prefix: string := "https://time-converter/?time="
  const DateKey: string := "date="

  /** The `value` of the link input. */
  function ShareLink(includeTime: bool, includeDate: bool, linkTime: string, linkDate: string): (url: string)
    ensures |url| == |Prefix| + |if includeTime then linkTime else ""| + 6 + |if includeDate then linkDate else ""|
    ensures url[..|Prefix|] == Prefix
  {
    Prefix + (if includeTime then linkTime else "") + "&" + DateKey + (if includeDate then linkDate else "")
  }

  /**
   * A reader of such links: after the prefix, the time runs up to the first `&`, which must
   * be followed by `date=`; the date is the rest.
   */
  function ReadShareLink(url: string): Option<(string, string)>
  {
    if |url| < |Prefix| || url[..|Prefix|] != Prefix then None
    else
      var query := url[|Prefix|..];
      var i := Clock.IndexOfChar(query, '&');
      if i < 0 then None
      else
        var after := query[i + 1..];
        if |after| < |DateKey| || after[..|DateKey|] != DateKey then None
        else Some((query[..i], after[|DateKey|..]))
  }

  /** The reader splits at the first `&` after the prefix. */
  lemma ReadSplitsAtFirstAmpersand(t: string, rest: string)
    requires '&' !in t
    ensures ReadShareLink(Prefix + t + "&" + rest)
      == if |rest| >= |DateKey| && rest[..|DateKey|] == DateKey then Some((t, rest[|DateKey|..])) else None
  {
    var tail := "&" + rest;
    var url := Prefix + t + "&" + rest;
    assert url == Prefix + (t + tail);
    assert url[..|Prefix|] == Prefix;
    assert url[|Prefix|..] == t + tail;
    Clock.IndexOfCharAfter(t, tail, '&');
    assert (t + tail)[..|t|] == t;
    assert (t + tail)[|t|..] == tail;
    assert tail[1..] == rest;
    assert (t + tail)[|t| + 1..] == rest;
  }

  /** Each field is the typed literal when its box is ticked and empty otherwise; a literal time without `&` reads back. */
  lemma ShareLinkReadsBack(includeTime: bool, includeDate: bool, linkTime: string, linkDate: string)
    requires includeTime ==> '&' !in linkTime
    ensures ReadShareLink(ShareLink(includeTime, includeDate, linkTime, linkDate))
      == Some((if includeTime then linkTime else "", if includeDate then linkDate else ""))
  {
    var t := if includeTime then linkTime else "";
    var d := if includeDate then linkDate else "";
    var rest := DateKey + d;
    assert ShareLink(includeTime, includeDate, linkTime, linkDate) == Prefix + t + "&" + rest;
    ReadSplitsAtFirstAmpersand(t, rest);
    assert rest[..|DateKey|] == DateKey && rest[|DateKey|..] == d;
  }

  /** An excluded field is empty whatever was typed for it. */
  lemma ExcludedFieldIgnored(includeTime: bool, includeDate: bool, linkTime: string, linkDate: string,
                             otherTime: string, otherDate: string)
    ensures !includeTime ==> ShareLink(includeTime, includeDate, linkTime, linkDate) == ShareLink(includeTime, includeDate, otherTime, linkDate)
    ensures !includeDate ==> ShareLink(includeTime, includeDate, linkTime, linkDate) == ShareLink(includeTime, includeDate, linkTime, otherDate)
  {
  }

  /** Date only: the time field stays empty and the date follows `&date=` verbatim. */
  lemma DateOnlyLink(linkTime: string)
    ensures ShareLink(false, true, linkTime, "2024-05-01") == "https://time-converter/?time=&date=2024-05-01"
  {
    assert Prefix + "" == Prefix;
    var url := Prefix + "&" + DateKey + "2024-05-01";
    assert |url| == 45;
    assert forall i :: 0 <= i < 45 ==> url[i] == "https://time-converter/?time=&date=2024-05-01"[i];
  }

  /** Nothing is escaped: a time literal holding `&date=` makes the link read as another time and date. */
  lemma UnescapedTimeMisreads()
    ensures ReadShareLink(ShareLink(true, false, "09:00&date=2024-01-01", "")) == Some(("09:00", "2024-01-01&date="))
  {
    var url := ShareLink(true, false, "09:00&date=2024-01-01", "");
    var rest := "date=2024-01-01&date=";
    var split := Prefix + "09:00" + "&" + rest;
    assert |url| == |split|;
    assert forall i :: 0 <= i < |url| ==> url[i] == split[i];
    assert url == split;
    assert rest[..|DateKey|] == DateKey;
    assert rest[|DateKey|..] == "2024-01-01&date=";
    ReadSplitsAtFirstAmpersand("09:00", rest);
  }
}
