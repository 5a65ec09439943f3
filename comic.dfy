/** The XKCDComic record: validation of a decoded JSON object into a comic,
    with three optional fields that default to the empty string, and the dump
    of a comic back into a JSON object (what the loader stores as raw_json). */
module ComicModel {
  import opened Errors

  /** A decoded JSON value, as far as validation can tell values apart. */
  datatype JsonValue = JInt(i: int) | JStr(s: string) | JOther

  /** A decoded JSON object. */
  type RawComic = map<string, JsonValue>

  datatype Comic = Comic(
    num: int,
    title: string,
    safeTitle: string,
    alt: string,
    img: string,
    transcript: string,
    year: string,
    month: string,
    day: string,
    link: string,
    news: string)

  /** The string fields that have no default. */
  const RequiredStringKeys: set<string> := {"title", "safe_title", "alt", "img", "year", "month", "day"}

  /** The string fields that default to "" when absent. */
  const DefaultedKeys: set<string> := {"transcript", "link", "news"}

  /** What validation demands of a JSON object, stated key by key. */
  predicate Acceptable(raw: RawComic) {
    && "num" in raw && raw["num"].JInt?
    && (forall k :: k in RequiredStringKeys ==> k in raw && raw[k].JStr?)
    && (forall k :: k in DefaultedKeys && k in raw ==> raw[k].JStr?)
  }

  function IntField(raw: RawComic, key: string): Result<int, Exc> {
    if key in raw && raw[key].JInt? then Ok(raw[key].i) else Err(ValidationError)
  }

  function StrField(raw: RawComic, key: string): Result<string, Exc> {
    if key in raw && raw[key].JStr? then Ok(raw[key].s) else Err(ValidationError)
  }

  function DefaultedStrField(raw: RawComic, key: string): Result<string, Exc> {
    if key !in raw then Ok("")
    else if raw[key].JStr? then Ok(raw[key].s)
    else Err(ValidationError)
  }

  /** XKCDComic(**data): validation of one decoded JSON object. Keys that
      are not fields of the record are ignored. */
  function Parse(raw: RawComic): (r: Result<Comic, Exc>)
    ensures r.Err? ==> r.error == ValidationError
    ensures r.Ok? ==> "num" in raw && raw["num"] == JInt(r.value.num)
  {
    var num :- IntField(raw, "num");
    var title :- StrField(raw, "title");
    var safeTitle :- StrField(raw, "safe_title");
    var alt :- StrField(raw, "alt");
    var img :- StrField(raw, "img");
    var transcript :- DefaultedStrField(raw, "transcript");
    var year :- StrField(raw, "year");
    var month :- StrField(raw, "month");
    var day :- StrField(raw, "day");
    var link :- DefaultedStrField(raw, "link");
    var news :- DefaultedStrField(raw, "news");
    Ok(Comic(num, title, safeTitle, alt, img, transcript, year, month, day, link, news))
  }

  /** model_dump(): every field of the record under its own key. */
  function Dump(c: Comic): (r: RawComic)
    ensures r.Keys == {"num"} + RequiredStringKeys + DefaultedKeys
  {
    map[
      "num" := JInt(c.num),
      "title" := JStr(c.title),
      "safe_title" := JStr(c.safeTitle),
      "alt" := JStr(c.alt),
      "img" := JStr(c.img),
      "transcript" := JStr(c.transcript),
      "year" := JStr(c.year),
      "month" := JStr(c.month),
      "day" := JStr(c.day),
      "link" := JStr(c.link),
      "news" := JStr(c.news)]
  }

  /** Validation succeeds exactly on the objects that carry every required
      field with the right shape and whose optional fields, when present,
      are strings. */
  lemma ParseAcceptsExactly(raw: RawComic)
    ensures Parse(raw).Ok? <==> Acceptable(raw)
    ensures Parse(raw).Err? ==> Parse(raw).error == ValidationError
  {
    if Acceptable(raw) {
      assert "title" in RequiredStringKeys && "safe_title" in RequiredStringKeys;
      assert "alt" in RequiredStringKeys && "img" in RequiredStringKeys;
      assert "year" in RequiredStringKeys && "month" in RequiredStringKeys && "day" in RequiredStringKeys;
      assert "transcript" in DefaultedKeys && "link" in DefaultedKeys && "news" in DefaultedKeys;
    }
  }

  /** An accepted object yields the values it carries, and "" for each
      optional field it lacks. */
  lemma ParseFields(raw: RawComic)
    requires Parse(raw).Ok?
    ensures var c := Parse(raw).value;
      && c.num == raw["num"].i
      && c.title == raw["title"].s && c.safeTitle == raw["safe_title"].s
      && c.alt == raw["alt"].s && c.img == raw["img"].s
      && c.year == raw["year"].s && c.month == raw["month"].s && c.day == raw["day"].s
      && c.transcript == (if "transcript" in raw then raw["transcript"].s else "")
      && c.link == (if "link" in raw then raw["link"].s else "")
      && c.news == (if "news" in raw then raw["news"].s else "")
  {
  }

  /** The dump carries every field of the record under its JSON name. */
  lemma DumpFields(c: Comic)
    ensures var d := Dump(c);
      && "num" in d && d["num"] == JInt(c.num)
      && "title" in d && d["title"] == JStr(c.title)
      && "safe_title" in d && d["safe_title"] == JStr(c.safeTitle)
      && "alt" in d && d["alt"] == JStr(c.alt)
      && "img" in d && d["img"] == JStr(c.img)
      && "transcript" in d && d["transcript"] == JStr(c.transcript)
      && "year" in d && d["year"] == JStr(c.year)
      && "month" in d && d["month"] == JStr(c.month)
      && "day" in d && d["day"] == JStr(c.day)
      && "link" in d && d["link"] == JStr(c.link)
      && "news" in d && d["news"] == JStr(c.news)
  {
  }

  /** Validating a dumped comic gives the comic back. */
  lemma ParseDump(c: Comic)
    ensures Parse(Dump(c)) == Ok(c)
  {
    DumpFields(c);
  }

  /** Dumping a validated object gives back every field it had, with the
      defaults filled in: validation loses nothing the record keeps. */
  lemma DumpParse(raw: RawComic)
    requires Parse(raw).Ok?
    ensures forall k :: k in raw && k in Dump(Parse(raw).value) ==> Dump(Parse(raw).value)[k] == raw[k]
    ensures Dump(Parse(raw).value).Keys == {"num"} + RequiredStringKeys + DefaultedKeys
  {
    var c := Parse(raw).value;
    ParseAcceptsExactly(raw);
    ParseFields(raw);
    DumpFields(c);
    forall k | k in raw && k in Dump(c)
      ensures Dump(c)[k] == raw[k]
    {
      if k == "num" {
      } else if k in RequiredStringKeys {
      } else {
        assert k in DefaultedKeys;
      }
    }
  }
}
