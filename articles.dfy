/** The article normaliser: one untyped API record becomes one fixed-shape article. */
module Articles {
  import opened Values
  import opened Text

  /** A record of the API's `results` array. Each field may be missing or of any type;
      the names follow the API's keys (`article_id`, `image_url`, `pubDateTZ`, ...). */
  datatype RawArticle = RawArticle(
    articleId: JsVal,
    link: JsVal,
    title: JsVal,
    description: JsVal,
    imageUrl: JsVal,
    sourceName: JsVal,
    sourceId: JsVal,
    sourceIcon: JsVal,
    country: JsVal,
    language: JsVal,
    category: JsVal,
    pubDate: JsVal,
    pubDateTz: JsVal)

  /** A record that is not an object (or is null) reads as one whose fields are all missing. */
  const EmptyRecord := RawArticle(Absent, Absent, Absent, Absent, Absent, Absent, Absent,
                                  Absent, Absent, Absent, Absent, Absent, Absent)

  /** The normalised article; `publishedAt` is the parsed instant in milliseconds, if any. */
  datatype Article = Article(
    id: string,
    link: string,
    title: string,
    description: string,
    image: string,
    sourceName: string,
    sourceIcon: string,
    country: seq<string>,
    language: string,
    category: seq<string>,
    publishedAt: Option<int>)

  /** The string handed to the host's date parser by `parsePubDate`, or `None` when there is
      no date: a UTC date "YYYY-MM-DD HH:mm:ss" becomes "YYYY-MM-DDTHH:mm:ssZ". */
  function PubDateText(pubDate: JsVal, pubDateTz: JsVal): (r: Option<string>)
    ensures r.None? <==> SafeText(pubDate) == ""
    ensures r.Some? && Upper(SafeText(pubDateTz)) == "UTC" ==>
              r.value == ReplaceFirst(SafeText(pubDate), ' ', 'T') + "Z"
    ensures r.Some? && Upper(SafeText(pubDateTz)) != "UTC" ==> r.value == SafeText(pubDate)
  {
    var raw := SafeText(pubDate);
    if raw == "" then None
    else if Upper(SafeText(pubDateTz)) == "UTC" then Some(ReplaceFirst(raw, ' ', 'T') + "Z")
    else Some(raw)
  }

  /** A UTC label in any letter case turns "date time" into the ISO form "dateTtimeZ". */
  lemma UtcDateBecomesIso(date: string, time: string, tz: string)
    requires ' ' !in date
    requires Upper(tz) == "UTC"
    ensures PubDateText(Str(date + " " + time), Str(tz)) == Some(date + "T" + time + "Z")
  {
    var raw := date + " " + time;
    assert raw[..|date|] == date && raw[|date|] == ' ';
    assert IndexOf(raw, ' ') == |date|;
    assert raw[|date| + 1..] == time;
  }

  lemma UpperUtc()
    ensures Upper("utc") == "UTC"
  {
    var u := Upper("utc");
    assert u[0] == 'U' && u[1] == 'T' && u[2] == 'C';
  }

  /** The example the API documents: "2026-01-30 09:40:00" with "utc" keeps its instant. */
  lemma DocumentedUtcExample()
    ensures PubDateText(Str("2026-01-30 09:40:00"), Str("utc")) == Some("2026-01-30T09:40:00Z")
  {
    UpperUtc();
    assert "2026-01-30 09:40:00" == "2026-01-30" + " " + "09:40:00";
    assert "2026-01-30" + "T" + "09:40:00" + "Z" == "2026-01-30T09:40:00Z";
    UtcDateBecomesIso("2026-01-30", "09:40:00", "utc");
  }

  /** `parsePubDate`: the host's parser decides whether the text is a valid instant. */
  function ParsePubDate(a: RawArticle, parseDate: string -> Option<int>): (r: Option<int>)
    ensures SafeText(a.pubDate) == "" ==> r == None
    ensures SafeText(a.pubDate) != "" ==> r == parseDate(PubDateText(a.pubDate, a.pubDateTz).value)
  {
    match PubDateText(a.pubDate, a.pubDateTz)
    case None => None
    case Some(text) => parseDate(text)
  }

  /** `normalizeArticle`, with the random fallback id passed in. Every field has a safe
      default, so any record, however malformed, gives an article. */
  function NormalizeArticle(a: RawArticle, fallbackId: string, parseDate: string -> Option<int>): (r: Article)
    // identity: the API's id when it is a non-empty string, the fallback otherwise
    ensures a.articleId.Str? && a.articleId.s != "" ==> r.id == a.articleId.s
    ensures !(a.articleId.Str? && a.articleId.s != "") ==> r.id == fallbackId
    // never an empty title, "Untitled" by default
    ensures r.title != ""
    ensures a.title.Str? && a.title.s != "" ==> r.title == a.title.s
    ensures !(a.title.Str? && a.title.s != "") ==> r.title == "Untitled"
    // never an empty source name: source_name, then source_id, then "Source"
    ensures r.sourceName != ""
    ensures a.sourceName.Str? && a.sourceName.s != "" ==> r.sourceName == a.sourceName.s
    ensures !(a.sourceName.Str? && a.sourceName.s != "") && a.sourceId.Str? && a.sourceId.s != "" ==>
              r.sourceName == a.sourceId.s
    ensures !(a.sourceName.Str? && a.sourceName.s != "") && !(a.sourceId.Str? && a.sourceId.s != "") ==>
              r.sourceName == "Source"
    // the other text fields: the string when there is one, "" otherwise
    ensures (a.link.Str? ==> r.link == a.link.s) && (!a.link.Str? ==> r.link == "")
    ensures (a.description.Str? ==> r.description == a.description.s) && (!a.description.Str? ==> r.description == "")
    ensures (a.imageUrl.Str? ==> r.image == a.imageUrl.s) && (!a.imageUrl.Str? ==> r.image == "")
    ensures (a.sourceIcon.Str? ==> r.sourceIcon == a.sourceIcon.s) && (!a.sourceIcon.Str? ==> r.sourceIcon == "")
    ensures (a.language.Str? ==> r.language == a.language.s) && (!a.language.Str? ==> r.language == "")
    // the two list fields: the array when there is one, empty otherwise
    ensures (a.country.Arr? ==> r.country == a.country.elems) && (!a.country.Arr? ==> r.country == [])
    ensures (a.category.Arr? ==> r.category == a.category.elems) && (!a.category.Arr? ==> r.category == [])
    // no date text, no instant; otherwise whatever the host's parser makes of it
    ensures SafeText(a.pubDate) == "" ==> r.publishedAt == None
    ensures SafeText(a.pubDate) != "" ==> r.publishedAt == parseDate(PubDateText(a.pubDate, a.pubDateTz).value)
  {
    Article(
      id := OrElse(SafeText(a.articleId), fallbackId),
      link := SafeText(a.link),
      title := OrElse(SafeText(a.title), "Untitled"),
      description := SafeText(a.description),
      image := SafeText(a.imageUrl),
      sourceName := OrElse(SafeText(a.sourceName), OrElse(SafeText(a.sourceId), "Source")),
      sourceIcon := SafeText(a.sourceIcon),
      country := ArrayOrEmpty(a.country),
      language := SafeText(a.language),
      category := ArrayOrEmpty(a.category),
      publishedAt := ParsePubDate(a, parseDate))
  }

  /** A missing or malformed record still normalises to the documented defaults. */
  lemma EmptyRecordDefaults(fallbackId: string, parseDate: string -> Option<int>)
    ensures NormalizeArticle(EmptyRecord, fallbackId, parseDate) ==
            Article(fallbackId, "", "Untitled", "", "", "Source", "", [], "", [], None)
  {
  }
}
