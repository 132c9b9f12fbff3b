/**
 * Reading the fields of a point of interest the way an application asks for
 * them: a label or description in a requested language that falls back to
 * the default language, typed values such as the price, thumbnails, image
 * links, point and polygon geometries, calendars, links, relationships and
 * tags. The POI records are read as values; only the default language is
 * state.
 */
module DataReading {
  import opened Results
  import opened Text
  import opened Collecting

  /** java.util.Locale as its three components, kept as given. */
  datatype Locale = Locale(language: string, country: string, variant: string)

  /** The fields of a POIBaseType / POITermType record the reader looks at. */
  datatype Item = Item(term: string, value: string, href: string, mediaType: string, lang: string)

  /** A Point or Polygon: its term and its geometry's position list (None when either is null). */
  datatype Shape = Shape(term: string, posList: Option<string>)

  /** A Relationship: its term, base and the two possible targets. */
  datatype Relation = Relation(term: string, base: string, targetPoi: Option<string>, targetEvent: Option<string>)

  /** The parts of a POI the reader looks at. */
  datatype Poi = Poi(lang: string, labels: seq<Item>, descriptions: seq<Item>, links: seq<Item>,
                     times: seq<Item>, points: seq<Shape>, polygons: seq<Shape>, relationships: seq<Relation>,
                     address: string)

  /** A DataContent: a string that may be null. */
  datatype Content = Content(data: Option<string>)

  /** An ImageContent: a URI when `isUri`, base-64 byte code otherwise. */
  datatype Image = Image(content: string, isUri: bool)

  /** A LocationContent (and a PointContent): latitude and longitude as given. */
  datatype Position = Position(latitude: Content, longitude: Content)

  /** The language and value of one tag of a tag group. */
  datatype TagValue = TagValue(lang: string, value: string)

  const PriceTag := "X-citysdk/price"
  const WaitingTag := "X-citysdk/waiting-time"
  const OccupationTag := "X-citysdk/occupation"
  const CalendarTag := "text/calendar"
  const ImageTag := "image/"
  const IconTerm := "icon"
  const RelatedTerm := "related"

  /** The locale the reader starts with. */
  const EnglishGB := Locale("en", "GB", "")

  // ---------------------------------------------------------------- locales

  /** A locale string's components: '-' read as '_', split at '_'. */
  function LocaleParts(s: string): seq<string> {
    Split(ReplaceChar(s, '-', '_'), '_')
  }

  /** `parseLocale(s)`: one to three components, IllegalArgumentException otherwise. */
  function ParseLocale(s: string): (r: Result<Locale>)
    ensures r.Fail? ==> r.error == IllegalArgument
  {
    var parts := LocaleParts(s);
    if |parts| == 3 then Ok(Locale(parts[0], parts[1], parts[2]))
    else if |parts| == 2 then Ok(Locale(parts[0], parts[1], ""))
    else if |parts| == 1 then Ok(Locale(parts[0], "", ""))
    else Fail(IllegalArgument)
  }

  /** Free of both separators. */
  predicate Plain(s: string) {
    '-' !in s && '_' !in s
  }

  /** The parser accepts exactly one to three components, and none of them holds a separator. */
  lemma ParsedLocaleIsPlain(s: string)
    ensures ParseLocale(s).Ok? <==> 1 <= |LocaleParts(s)| <= 3
    ensures ParseLocale(s).Ok? ==>
      Plain(ParseLocale(s).value.language) && Plain(ParseLocale(s).value.country) && Plain(ParseLocale(s).value.variant)
  {
    var t := ReplaceChar(s, '-', '_');
    assert '-' !in t;
    var parts := LocaleParts(s);
    if '_' in t {
      var pieces := Pieces(t, '_');
      PiecesAvoid(t, '_');
      PiecesChars(t, '_');
      assert parts == pieces[..|parts|];
      assert forall k :: 0 <= k < |parts| ==> parts[k] == pieces[k];
    } else {
      assert parts == [t];
    }
    assert forall k :: 0 <= k < |parts| ==> Plain(parts[k]);
  }

  /** A separator-free locale string is a language alone. */
  lemma LocaleOfLanguage(a: string)
    requires Plain(a)
    ensures ParseLocale(a) == Ok(Locale(a, "", ""))
  {
    assert ReplaceChar(a, '-', '_') == a;
  }

  /** "ll-CC" and "ll_CC" are a language and a country. */
  lemma LocaleOfLanguageCountry(a: string, sep: char, b: string)
    requires Plain(a) && Plain(b) && b != "" && (sep == '-' || sep == '_')
    ensures ParseLocale(a + [sep] + b) == Ok(Locale(a, b, ""))
  {
    var t := ReplaceChar(a + [sep] + b, '-', '_');
    assert t == a + ['_'] + b;
    PiecesAt(a, '_', b);
    PiecesWithout(b, '_');
    assert LocaleParts(a + [sep] + b) == [a, b];
  }

  /** "ll_CC_VV" is a language, a country and a variant. */
  lemma LocaleOfThreeParts(a: string, b: string, c: string)
    requires Plain(a) && Plain(b) && Plain(c) && c != ""
    ensures ParseLocale(a + "_" + b + "_" + c) == Ok(Locale(a, b, c))
  {
    var t := a + "_" + b + "_" + c;
    assert ReplaceChar(t, '-', '_') == t;
    assert t == a + ['_'] + (b + ['_'] + c);
    PiecesAt(a, '_', b + ['_'] + c);
    PiecesAt(b, '_', c);
    PiecesWithout(c, '_');
    assert LocaleParts(t) == [a, b, c];
  }

  /** Four components are refused. */
  lemma LocaleOfFourParts(a: string, b: string, c: string, d: string)
    requires Plain(a) && Plain(b) && Plain(c) && Plain(d) && d != ""
    ensures ParseLocale(a + "_" + b + "_" + c + "_" + d) == Fail(IllegalArgument)
  {
    var t := a + "_" + b + "_" + c + "_" + d;
    var cd := c + ['_'] + d;
    var bcd := b + ['_'] + cd;
    assert t == a + ['_'] + bcd;
    assert ReplaceChar(t, '-', '_') == t;
    PiecesWithout(d, '_');
    PiecesAt(c, '_', d);
    assert Pieces(cd, '_') == [c, d];
    PiecesAt(b, '_', cd);
    assert Pieces(bcd, '_') == [b, c, d];
    PiecesAt(a, '_', bcd);
    assert Pieces(t, '_') == [a, b, c, d];
    assert t[|a|] == '_';
    assert LocaleParts(t) == TrimTrailingEmpty([a, b, c, d]) == [a, b, c, d];
  }

  /** A lone separator splits into no components at all, and is refused. */
  lemma LocaleOfSeparator(sep: char)
    requires sep == '-' || sep == '_'
    ensures ParseLocale([sep]) == Fail(IllegalArgument)
  {
    assert ReplaceChar([sep], '-', '_') == [] + ['_'] + [];
    PiecesAt([], '_', []);
    assert Pieces([], '_') == [""];
    assert TrimTrailingEmpty(["", ""]) == TrimTrailingEmpty([""]);
  }

  // ------------------------------------------------ label, description, typed values

  /** The language of an item: the POI's when the item gives none, else its parsed own. */
  function ItemLanguage(item: Item, poiLang: Locale): (r: Result<string>)
    ensures item.lang == "" ==> r == Ok(poiLang.language)
    ensures item.lang != "" ==> (r.Ok? <==> ParseLocale(item.lang).Ok?)
    ensures r.Fail? ==> r.error == IllegalArgument
  {
    if item.lang == "" then Ok(poiLang.language)
    else
      match ParseLocale(item.lang)
      case Ok(l) => Ok(l.language)
      case Fail(e) => Fail(e)
  }

  /**
   * What a reading loop looks for. `Keeps` marks an item that overwrites the
   * default-language value; `Returns` one that is answered at once, asked only
   * of an item that does not keep.
   */
  datatype Rule =
    | LabelRule(term: string, wanted: string, fallback: string)
    | DescriptionRule(wanted: string, fallback: string)
    | TypeRule(mediaType: string, requested: Option<string>, fallback: string)
  {
    /** getLabel reads the labels, the other two the descriptions. */
    function Items(poi: Poi): seq<Item> {
      if LabelRule? then poi.labels else poi.descriptions
    }

    predicate Keeps(item: Item, language: string) {
      match this
      case LabelRule(term, _, fallback) => item.term == term && language == fallback
      case DescriptionRule(_, fallback) => language == fallback
      case TypeRule(mediaType, requested, fallback) =>
        item.mediaType == mediaType && (requested.None? || language == fallback)
    }

    /**
     * getValueWithTag's second branch tests the same type as its first, so it
     * is reached only when the first is not taken and then never holds.
     */
    predicate Returns(item: Item, language: string) {
      match this
      case LabelRule(term, wanted, _) => item.term == term && language == wanted
      case DescriptionRule(wanted, _) => language == wanted
      case TypeRule(_, _, _) => false
    }

    predicate Stops(item: Item, language: string) {
      !Keeps(item, language) && Returns(item, language)
    }
  }

  /** The reading loop from index `i`, with `kept` the default-language value so far. */
  function Choose(items: seq<Item>, poiLang: Locale, rule: Rule, i: nat, kept: Option<string>): Result<Option<string>>
    decreases |items| - i
  {
    if i >= |items| then Ok(kept)
    else
      match ItemLanguage(items[i], poiLang)
      case Fail(e) => Fail(e)
      case Ok(language) =>
        if rule.Keeps(items[i], language) then Choose(items, poiLang, rule, i + 1, Some(items[i].value))
        else if rule.Returns(items[i], language) then Ok(Some(items[i].value))
        else Choose(items, poiLang, rule, i + 1, kept)
  }

  /** What getLabel, getDescription and getValueWithTag answer: null content for a null POI. */
  function Selection(poi: Option<Poi>, rule: Rule): Result<Content> {
    if poi.None? then Ok(Content(None))
    else
      match ParseLocale(poi.value.lang)
      case Fail(e) => Fail(e)
      case Ok(poiLang) =>
        match Choose(rule.Items(poi.value), poiLang, rule, 0, None)
        case Fail(e) => Fail(e)
        case Ok(v) => Ok(Content(v))
  }

  /** The first stopping item is the answer, whatever came before it. */
  lemma {:induction false} ChooseFirstStop(items: seq<Item>, poiLang: Locale, rule: Rule, i: nat, kept: Option<string>, k: nat)
    requires i <= k < |items|
    requires forall j :: i <= j <= k ==> ItemLanguage(items[j], poiLang).Ok?
    requires rule.Stops(items[k], ItemLanguage(items[k], poiLang).value)
    requires forall j :: i <= j < k ==> !rule.Stops(items[j], ItemLanguage(items[j], poiLang).value)
    ensures Choose(items, poiLang, rule, i, kept) == Ok(Some(items[k].value))
    decreases k - i
  {
    if i < k {
      var language := ItemLanguage(items[i], poiLang).value;
      var next := if rule.Keeps(items[i], language) then Some(items[i].value) else kept;
      ChooseFirstStop(items, poiLang, rule, i + 1, next, k);
    }
  }

  /** Without a stopping item, the last keeping item is the answer. */
  lemma {:induction false} ChooseLastKept(items: seq<Item>, poiLang: Locale, rule: Rule, i: nat, kept: Option<string>, k: nat)
    requires i <= k < |items|
    requires forall j :: i <= j < |items| ==> ItemLanguage(items[j], poiLang).Ok?
    requires forall j :: i <= j < |items| ==> !rule.Stops(items[j], ItemLanguage(items[j], poiLang).value)
    requires rule.Keeps(items[k], ItemLanguage(items[k], poiLang).value)
    requires forall j :: k < j < |items| ==> !rule.Keeps(items[j], ItemLanguage(items[j], poiLang).value)
    ensures Choose(items, poiLang, rule, i, kept) == Ok(Some(items[k].value))
    decreases |items| - i
  {
    var language := ItemLanguage(items[i], poiLang).value;
    var next := if rule.Keeps(items[i], language) then Some(items[i].value) else kept;
    if i < k {
      ChooseLastKept(items, poiLang, rule, i + 1, next, k);
    } else {
      ChooseNoneKept(items, poiLang, rule, i + 1, next);
    }
  }

  /** Without a stopping or keeping item, the value kept so far is the answer. */
  lemma {:induction false} ChooseNoneKept(items: seq<Item>, poiLang: Locale, rule: Rule, i: nat, kept: Option<string>)
    requires forall j :: i <= j < |items| ==> ItemLanguage(items[j], poiLang).Ok?
    requires forall j :: i <= j < |items| ==>
      !rule.Stops(items[j], ItemLanguage(items[j], poiLang).value) && !rule.Keeps(items[j], ItemLanguage(items[j], poiLang).value)
    ensures Choose(items, poiLang, rule, i, kept) == Ok(kept)
    decreases |items| - i
  {
    if i < |items| {
      ChooseNoneKept(items, poiLang, rule, i + 1, kept);
    }
  }

  /** An item whose language does not parse throws, unless an earlier item stopped the loop. */
  lemma {:induction false} ChooseFails(items: seq<Item>, poiLang: Locale, rule: Rule, i: nat, kept: Option<string>, f: nat)
    requires i <= f < |items| && ItemLanguage(items[f], poiLang).Fail?
    requires forall j :: i <= j < f ==> ItemLanguage(items[j], poiLang).Ok?
    requires forall j :: i <= j < f ==> !rule.Stops(items[j], ItemLanguage(items[j], poiLang).value)
    ensures Choose(items, poiLang, rule, i, kept) == Fail(IllegalArgument)
    decreases f - i
  {
    if i < f {
      var language := ItemLanguage(items[i], poiLang).value;
      var next := if rule.Keeps(items[i], language) then Some(items[i].value) else kept;
      ChooseFails(items, poiLang, rule, i + 1, next, f);
    }
  }

  /**
   * getLabel answers the first label of the term in the requested language,
   * provided that language is not the default one.
   */
  lemma LabelPrefersRequested(poi: Poi, poiLang: Locale, term: string, wanted: string, fallback: string, k: nat)
    requires ParseLocale(poi.lang) == Ok(poiLang)
    requires k < |poi.labels| && wanted != fallback
    requires forall j :: 0 <= j <= k ==> ItemLanguage(poi.labels[j], poiLang).Ok?
    requires poi.labels[k].term == term && ItemLanguage(poi.labels[k], poiLang).value == wanted
    requires forall j :: 0 <= j < k ==> !(poi.labels[j].term == term && ItemLanguage(poi.labels[j], poiLang).value == wanted)
    ensures Selection(Some(poi), LabelRule(term, wanted, fallback)) == Ok(Content(Some(poi.labels[k].value)))
  {
    ChooseFirstStop(poi.labels, poiLang, LabelRule(term, wanted, fallback), 0, None, k);
  }

  /**
   * Otherwise getLabel answers the last label of the term in the default
   * language; this is always so when the requested language is the default.
   */
  lemma LabelFallsBack(poi: Poi, poiLang: Locale, term: string, wanted: string, fallback: string, k: nat)
    requires ParseLocale(poi.lang) == Ok(poiLang)
    requires k < |poi.labels|
    requires forall j :: 0 <= j < |poi.labels| ==> ItemLanguage(poi.labels[j], poiLang).Ok?
    requires wanted == fallback ||
      forall j :: 0 <= j < |poi.labels| ==> !(poi.labels[j].term == term && ItemLanguage(poi.labels[j], poiLang).value == wanted)
    requires poi.labels[k].term == term && ItemLanguage(poi.labels[k], poiLang).value == fallback
    requires forall j :: k < j < |poi.labels| ==> !(poi.labels[j].term == term && ItemLanguage(poi.labels[j], poiLang).value == fallback)
    ensures Selection(Some(poi), LabelRule(term, wanted, fallback)) == Ok(Content(Some(poi.labels[k].value)))
  {
    ChooseLastKept(poi.labels, poiLang, LabelRule(term, wanted, fallback), 0, None, k);
  }

  /** With neither, getLabel answers null content. */
  lemma LabelAbsent(poi: Poi, poiLang: Locale, term: string, wanted: string, fallback: string)
    requires ParseLocale(poi.lang) == Ok(poiLang)
    requires forall j :: 0 <= j < |poi.labels| ==> ItemLanguage(poi.labels[j], poiLang).Ok?
    requires forall j :: 0 <= j < |poi.labels| ==>
      !(poi.labels[j].term == term && ItemLanguage(poi.labels[j], poiLang).value in {wanted, fallback})
    ensures Selection(Some(poi), LabelRule(term, wanted, fallback)) == Ok(Content(None))
  {
    ChooseNoneKept(poi.labels, poiLang, LabelRule(term, wanted, fallback), 0, None);
  }

  /** getDescription answers the first description in the requested, non-default language. */
  lemma DescriptionPrefersRequested(poi: Poi, poiLang: Locale, wanted: string, fallback: string, k: nat)
    requires ParseLocale(poi.lang) == Ok(poiLang)
    requires k < |poi.descriptions| && wanted != fallback
    requires forall j :: 0 <= j <= k ==> ItemLanguage(poi.descriptions[j], poiLang).Ok?
    requires ItemLanguage(poi.descriptions[k], poiLang).value == wanted
    requires forall j :: 0 <= j < k ==> ItemLanguage(poi.descriptions[j], poiLang).value != wanted
    ensures Selection(Some(poi), DescriptionRule(wanted, fallback)) == Ok(Content(Some(poi.descriptions[k].value)))
  {
    ChooseFirstStop(poi.descriptions, poiLang, DescriptionRule(wanted, fallback), 0, None, k);
  }

  /** Otherwise getDescription answers the last description in the default language. */
  lemma DescriptionFallsBack(poi: Poi, poiLang: Locale, wanted: string, fallback: string, k: nat)
    requires ParseLocale(poi.lang) == Ok(poiLang)
    requires k < |poi.descriptions|
    requires forall j :: 0 <= j < |poi.descriptions| ==> ItemLanguage(poi.descriptions[j], poiLang).Ok?
    requires wanted == fallback ||
      forall j :: 0 <= j < |poi.descriptions| ==> ItemLanguage(poi.descriptions[j], poiLang).value != wanted
    requires ItemLanguage(poi.descriptions[k], poiLang).value == fallback
    requires forall j :: k < j < |poi.descriptions| ==> ItemLanguage(poi.descriptions[j], poiLang).value != fallback
    ensures Selection(Some(poi), DescriptionRule(wanted, fallback)) == Ok(Content(Some(poi.descriptions[k].value)))
  {
    ChooseLastKept(poi.descriptions, poiLang, DescriptionRule(wanted, fallback), 0, None, k);
  }

  /**
   * getValueWithTag answers the last description of the type: in the default
   * language when a language is requested, in any language when none is.
   */
  lemma ValueWithTagIsLast(poi: Poi, poiLang: Locale, tag: string, requested: Option<string>, fallback: string, k: nat)
    requires ParseLocale(poi.lang) == Ok(poiLang)
    requires k < |poi.descriptions|
    requires forall j :: 0 <= j < |poi.descriptions| ==> ItemLanguage(poi.descriptions[j], poiLang).Ok?
    requires poi.descriptions[k].mediaType == tag
    requires requested.Some? ==> ItemLanguage(poi.descriptions[k], poiLang).value == fallback
    requires forall j :: k < j < |poi.descriptions| ==>
      !(poi.descriptions[j].mediaType == tag && (requested.None? || ItemLanguage(poi.descriptions[j], poiLang).value == fallback))
    ensures Selection(Some(poi), TypeRule(tag, requested, fallback)) == Ok(Content(Some(poi.descriptions[k].value)))
  {
    ChooseLastKept(poi.descriptions, poiLang, TypeRule(tag, requested, fallback), 0, None, k);
  }

  /** Without such a description getValueWithTag answers null content, even in the requested language. */
  lemma ValueWithTagAbsent(poi: Poi, poiLang: Locale, tag: string, requested: Option<string>, fallback: string)
    requires ParseLocale(poi.lang) == Ok(poiLang)
    requires forall j :: 0 <= j < |poi.descriptions| ==> ItemLanguage(poi.descriptions[j], poiLang).Ok?
    requires forall j :: 0 <= j < |poi.descriptions| ==>
      !(poi.descriptions[j].mediaType == tag && (requested.None? || ItemLanguage(poi.descriptions[j], poiLang).value == fallback))
    ensures Selection(Some(poi), TypeRule(tag, requested, fallback)) == Ok(Content(None))
  {
    ChooseNoneKept(poi.descriptions, poiLang, TypeRule(tag, requested, fallback), 0, None);
  }

  /**
   * A language that does not parse throws IllegalArgumentException: the POI's
   * own at once, an item's when the loop reaches it.
   */
  lemma SelectionFails(poi: Poi, rule: Rule, f: nat)
    ensures ParseLocale(poi.lang).Fail? ==> Selection(Some(poi), rule) == Fail(IllegalArgument)
    ensures ParseLocale(poi.lang).Ok? && f < |rule.Items(poi)| &&
      ItemLanguage(rule.Items(poi)[f], ParseLocale(poi.lang).value).Fail? &&
      (forall j :: 0 <= j < f ==>
        ItemLanguage(rule.Items(poi)[j], ParseLocale(poi.lang).value).Ok? &&
        !rule.Stops(rule.Items(poi)[j], ItemLanguage(rule.Items(poi)[j], ParseLocale(poi.lang).value).value))
      ==> Selection(Some(poi), rule) == Fail(IllegalArgument)
  {
    if ParseLocale(poi.lang).Ok? && f < |rule.Items(poi)| {
      var poiLang := ParseLocale(poi.lang).value;
      var items := rule.Items(poi);
      if ItemLanguage(items[f], poiLang).Fail? &&
         forall j :: 0 <= j < f ==> ItemLanguage(items[j], poiLang).Ok? && !rule.Stops(items[j], ItemLanguage(items[j], poiLang).value)
      {
        ChooseFails(items, poiLang, rule, 0, None, f);
      }
    }
  }

  /** The reading loop of getLabel, getDescription and getValueWithTag. */
  method Select(poi: Option<Poi>, rule: Rule) returns (r: Result<Content>)
    ensures r == Selection(poi, rule)
  {
    if poi.None? {
      return Ok(Content(None));
    }
    var parsed := ParseLocale(poi.value.lang);
    if parsed.Fail? {
      return Fail(parsed.error);
    }
    var poiLang := parsed.value;
    var items := rule.Items(poi.value);
    var kept: Option<string> := None;
    var i := 0;
    while i < |items|
      invariant 0 <= i <= |items|
      invariant Choose(items, poiLang, rule, 0, None) == Choose(items, poiLang, rule, i, kept)
    {
      var language := ItemLanguage(items[i], poiLang);
      if language.Fail? {
        return Fail(language.error);
      }
      if rule.Keeps(items[i], language.value) {
        kept := Some(items[i].value);
      } else if rule.Returns(items[i], language.value) {
        return Ok(Content(Some(items[i].value)));
      }
      i := i + 1;
    }
    return Ok(Content(kept));
  }

  /** The reader's one piece of state: the default language. */
  class DataReader {
    var defaultLang: Locale

    /** The default language starts as en_GB. */
    constructor ()
      ensures defaultLang == EnglishGB
    {
      defaultLang := EnglishGB;
    }

    /** `setDefaultLocale(locale)`: null leaves the default as it is. */
    method SetDefaultLocale(locale: Option<Locale>)
      modifies this
      ensures defaultLang == if locale.None? then old(defaultLang) else locale.value
    {
      if locale.None? {
        return;
      }
      defaultLang := locale.value;
    }

    /** `getLabel(poi, term, lang)`. */
    method GetLabel(poi: Option<Poi>, term: string, lang: Locale) returns (r: Result<Content>)
      ensures r == Selection(poi, LabelRule(term, lang.language, defaultLang.language))
    {
      r := Select(poi, LabelRule(term, lang.language, defaultLang.language));
    }

    /** `getDescription(poi, lang)`. */
    method GetDescription(poi: Option<Poi>, lang: Locale) returns (r: Result<Content>)
      ensures r == Selection(poi, DescriptionRule(lang.language, defaultLang.language))
    {
      r := Select(poi, DescriptionRule(lang.language, defaultLang.language));
    }

    /** `getValueWithTag(poi, lang, tag)`; a null `lang` takes any language. */
    method GetValueWithTag(poi: Option<Poi>, lang: Option<Locale>, tag: string) returns (r: Result<Content>)
      ensures r == Selection(poi, TypeRule(tag, if lang.None? then None else Some(lang.value.language), defaultLang.language))
    {
      var requested := if lang.None? then None else Some(lang.value.language);
      r := Select(poi, TypeRule(tag, requested, defaultLang.language));
    }

    /** `getPrice(poi, lang)`: the price description. */
    method GetPrice(poi: Option<Poi>, lang: Option<Locale>) returns (r: Result<Content>)
      ensures r == Selection(poi, TypeRule(PriceTag, if lang.None? then None else Some(lang.value.language), defaultLang.language))
    {
      r := GetValueWithTag(poi, lang, PriceTag);
    }

    /** `getWaitingTime(poi)`: the waiting-time description in any language. */
    method GetWaitingTime(poi: Option<Poi>) returns (r: Result<Content>)
      ensures r == Selection(poi, TypeRule(WaitingTag, None, defaultLang.language))
    {
      r := GetValueWithTag(poi, None, WaitingTag);
    }

    /** `getOccupation(poi)`: the occupation description in any language. */
    method GetOccupation(poi: Option<Poi>) returns (r: Result<Content>)
      ensures r == Selection(poi, TypeRule(OccupationTag, None, defaultLang.language))
    {
      r := GetValueWithTag(poi, None, OccupationTag);
    }
  }

  // ------------------------------------------------ images

  /** What one link adds to getThumbnails: an icon's href as a URI, else its value as byte code. */
  function Thumbnail(link: Item): (r: Option<Image>)
    ensures r.Some? ==> link.term == IconTerm && r.value.content != ""
  {
    if link.term != IconTerm then None
    else if link.href != "" then Some(Image(link.href, true))
    else if link.value != "" then Some(Image(link.value, false))
    else None
  }

  function ThumbnailStep(link: Item): Result<Option<Image>> {
    Ok(Thumbnail(link))
  }

  /** `getThumbnails(poi)`: the icons in link order; an empty list for a null POI. */
  method GetThumbnails(poi: Option<Poi>) returns (r: seq<Image>)
    ensures poi.None? ==> r == []
    ensures poi.Some? ==> Collect(poi.value.links, ThumbnailStep) == Ok(r)
  {
    if poi.None? {
      return [];
    }
    CollectTotal(poi.value.links, ThumbnailStep);
    var collected := CollectEach(poi.value.links, ThumbnailStep);
    r := collected.value;
  }

  /**
   * The thumbnails never throw. Each is a non-empty href of an icon link, as a
   * URI, or the non-empty value of an icon link without href, as byte code;
   * and every icon link with an href or a value gives its thumbnail.
   */
  lemma ThumbnailsOfLinks(links: seq<Item>)
    ensures Collect(links, ThumbnailStep).Ok?
    ensures forall img :: img in Collect(links, ThumbnailStep).value ==>
      img.content != "" &&
      exists k :: 0 <= k < |links| && links[k].term == IconTerm &&
        (if img.isUri then img.content == links[k].href else links[k].href == "" && img.content == links[k].value)
    ensures forall k :: 0 <= k < |links| && links[k].term == IconTerm && links[k].href != "" ==>
      Image(links[k].href, true) in Collect(links, ThumbnailStep).value
    ensures forall k :: 0 <= k < |links| && links[k].term == IconTerm && links[k].href == "" && links[k].value != "" ==>
      Image(links[k].value, false) in Collect(links, ThumbnailStep).value
  {
    CollectTotal(links, ThumbnailStep);
    CollectMembers(links, ThumbnailStep);
  }

  /** The thumbnails of two runs of links are those of the first run, then those of the second. */
  lemma ThumbnailsInOrder(a: seq<Item>, b: seq<Item>)
    ensures Collect(a, ThumbnailStep).Ok? && Collect(b, ThumbnailStep).Ok?
    ensures Collect(a + b, ThumbnailStep) == Ok(Collect(a, ThumbnailStep).value + Collect(b, ThumbnailStep).value)
  {
    CollectTotal(a, ThumbnailStep);
    CollectTotal(b, ThumbnailStep);
    CollectAppend(a, b, ThumbnailStep);
  }

  /** What one link adds to getImagesUri: the href of a related link whose type names an image. */
  function RelatedImage(link: Item): (r: Option<Image>)
    ensures r.Some? ==> r.value.isUri
  {
    if link.term == RelatedTerm && ContainsText(link.mediaType, ImageTag) then Some(Image(link.href, true)) else None
  }

  function RelatedImageStep(link: Item): Result<Option<Image>> {
    Ok(RelatedImage(link))
  }

  /** `getImagesUri(poi)`: the related images in link order; null for a null POI. */
  method GetImagesUri(poi: Option<Poi>) returns (r: Option<seq<Image>>)
    ensures poi.None? <==> r.None?
    ensures poi.Some? ==> Collect(poi.value.links, RelatedImageStep) == Ok(r.value)
  {
    if poi.None? {
      return None;
    }
    CollectTotal(poi.value.links, RelatedImageStep);
    var collected := CollectEach(poi.value.links, RelatedImageStep);
    r := Some(collected.value);
  }

  /** The image URIs are exactly the hrefs of the related links whose type contains "image/". */
  lemma ImagesOfLinks(links: seq<Item>)
    ensures Collect(links, RelatedImageStep).Ok?
    ensures forall img :: img in Collect(links, RelatedImageStep).value ==>
      img.isUri &&
      exists k :: 0 <= k < |links| && links[k].term == RelatedTerm && ContainsText(links[k].mediaType, ImageTag) &&
        img.content == links[k].href
    ensures forall k :: 0 <= k < |links| && links[k].term == RelatedTerm && ContainsText(links[k].mediaType, ImageTag) ==>
      Image(links[k].href, true) in Collect(links, RelatedImageStep).value
  {
    CollectTotal(links, RelatedImageStep);
    CollectMembers(links, RelatedImageStep);
  }

  // ------------------------------------------------ geometries

  /** The first two space-separated tokens of a position list: latitude, then longitude. */
  function Coordinates(pos: string): (r: Result<Position>)
    ensures r.Fail? ==> r.error == IndexOutOfBounds
  {
    var data := Split(pos, ' ');
    if |data| < 2 then Fail(IndexOutOfBounds)
    else Ok(Position(Content(Some(data[0])), Content(Some(data[1]))))
  }

  /** The first two space-separated pieces of "lat lon" and what follows a further space. */
  lemma PairPieces(lat: string, lon: string, rest: string)
    requires ' ' !in lat && ' ' !in lon
    requires rest == "" || rest[0] == ' '
    ensures |Pieces(lat + " " + lon + rest, ' ')| >= 2
    ensures Pieces(lat + " " + lon + rest, ' ')[..2] == [lat, lon]
  {
    assert lat + " " + lon + rest == lat + [' '] + (lon + rest);
    PiecesAt(lat, ' ', lon + rest);
    if rest == "" {
      assert lon + rest == lon;
      PiecesWithout(lon, ' ');
    } else {
      assert lon + rest == lon + [' '] + rest[1..];
      PiecesAt(lon, ' ', rest[1..]);
    }
  }

  /** "lat lon", with anything after a further space, reads as that latitude and longitude. */
  lemma CoordinatesOfPair(lat: string, lon: string, rest: string)
    requires lat != "" && lon != "" && ' ' !in lat && ' ' !in lon
    requires rest == "" || rest[0] == ' '
    ensures Coordinates(lat + " " + lon + rest) == Ok(Position(Content(Some(lat)), Content(Some(lon))))
  {
    var t := lat + " " + lon + rest;
    assert t[|lat|] == ' ';
    PairPieces(lat, lon, rest);
    var pieces := Pieces(t, ' ');
    TrimKeepsPrefix(pieces, 2);
    assert Split(t, ' ') == TrimTrailingEmpty(pieces);
  }

  /** A single token has no longitude: the array access throws. */
  lemma CoordinatesOfOneToken(lat: string)
    requires ' ' !in lat
    ensures Coordinates(lat) == Fail(IndexOutOfBounds)
  {
  }

  /**
   * A position list that starts with a space, as a polygon segment does after
   * ", ", yields an empty latitude and its first number as the longitude.
   */
  lemma CoordinatesAfterSpace(lat: string, lon: string)
    requires lat != "" && lon != "" && ' ' !in lat && ' ' !in lon
    ensures Coordinates(" " + lat + " " + lon) == Ok(Position(Content(Some("")), Content(Some(lat))))
  {
    var t := " " + lat + " " + lon;
    assert t == [] + [' '] + (lat + [' '] + lon);
    PiecesAt([], ' ', lat + [' '] + lon);
    PiecesAt(lat, ' ', lon);
    PiecesWithout(lon, ' ');
    var pieces := Pieces(t, ' ');
    assert pieces == ["", lat, lon];
    TrimKeepsPrefix(pieces, 3);
    assert t[0] == ' ';
  }

  /** What one point adds to getLocationPoint: nothing for another term; a null geometry throws. */
  function PointOf(point: Shape, term: string): Result<Option<Position>> {
    if point.term != term then Ok(None)
    else if point.posList.None? then Fail(NullPointer)
    else
      match Coordinates(point.posList.value)
      case Fail(e) => Fail(e)
      case Ok(p) => Ok(Some(p))
  }

  function PointStep(term: string): Shape -> Result<Option<Position>> {
    point => PointOf(point, term)
  }

  /** `getLocationPoint(poi, term)`: the points of the term in order; an empty list for a null POI. */
  method GetLocationPoint(poi: Option<Poi>, term: string) returns (r: Result<seq<Position>>)
    ensures poi.None? ==> r == Ok([])
    ensures poi.Some? ==> r == Collect(poi.value.points, PointStep(term))
  {
    if poi.None? {
      return Ok([]);
    }
    r := CollectEach(poi.value.points, PointStep(term));
  }

  /**
   * The points read are the coordinates of the points of the term, each of
   * which is read; points of other terms are passed over.
   */
  lemma PointsOfTerm(points: seq<Shape>, term: string)
    requires Collect(points, PointStep(term)).Ok?
    ensures forall k :: 0 <= k < |points| && points[k].term == term ==>
      points[k].posList.Some? && Coordinates(points[k].posList.value).Ok? &&
      Coordinates(points[k].posList.value).value in Collect(points, PointStep(term)).value
    ensures forall p :: p in Collect(points, PointStep(term)).value ==>
      exists k :: 0 <= k < |points| && points[k].term == term && points[k].posList.Some? &&
        Coordinates(points[k].posList.value) == Ok(p)
  {
    CollectMembers(points, PointStep(term));
  }

  /** One vertex per comma-separated segment. */
  function SegmentStep(segment: string): Result<Option<Position>> {
    match Coordinates(segment)
    case Fail(e) => Fail(e)
    case Ok(p) => Ok(Some(p))
  }

  /** What one polygon adds to getLocationPolygon: nothing for another term; a null geometry throws. */
  function PolygonOf(polygon: Shape, term: string): Result<Option<seq<Position>>> {
    if polygon.term != term then Ok(None)
    else if polygon.posList.None? then Fail(NullPointer)
    else
      match Collect(Split(polygon.posList.value, ','), SegmentStep)
      case Fail(e) => Fail(e)
      case Ok(vertices) => Ok(Some(vertices))
  }

  function PolygonStep(term: string): Shape -> Result<Option<seq<Position>>> {
    polygon => PolygonOf(polygon, term)
  }

  /** The inner loop of getLocationPolygon: one polygon's vertices. */
  method ReadPolygon(polygon: Shape, term: string) returns (r: Result<Option<seq<Position>>>)
    ensures r == PolygonOf(polygon, term)
  {
    if polygon.term != term {
      return Ok(None);
    }
    if polygon.posList.None? {
      return Fail(NullPointer);
    }
    var vertices := CollectEach(Split(polygon.posList.value, ','), SegmentStep);
    if vertices.Fail? {
      return Fail(vertices.error);
    }
    return Ok(Some(vertices.value));
  }

  /** `getLocationPolygon(poi, term)`: the polygons of the term in order; an empty list for a null POI. */
  method GetLocationPolygon(poi: Option<Poi>, term: string) returns (r: Result<seq<seq<Position>>>)
    ensures poi.None? ==> r == Ok([])
    ensures poi.Some? ==> r == Collect(poi.value.polygons, PolygonStep(term))
  {
    if poi.None? {
      return Ok([]);
    }
    var polygons := poi.value.polygons;
    var list: seq<seq<Position>> := [];
    var k := 0;
    while k < |polygons|
      invariant 0 <= k <= |polygons|
      invariant Collect(polygons[..k], PolygonStep(term)) == Ok(list)
    {
      var polygon := ReadPolygon(polygons[k], term);
      assert PolygonStep(term)(polygons[k]) == polygon;
      if polygon.Fail? {
        assert polygons[..k + 1][..k] == polygons[..k];
        CollectFailsExtend(polygons, PolygonStep(term), k + 1);
        return Fail(polygon.error);
      }
      CollectStep(polygons, PolygonStep(term), k, list, polygon.value);
      list := list + Kept(polygon.value);
      k := k + 1;
    }
    assert polygons[..k] == polygons;
    return Ok(list);
  }

  /** A polygon read has one vertex per comma-separated segment, the k-th read from the k-th segment. */
  lemma PolygonVertices(polygon: Shape, term: string)
    requires PolygonOf(polygon, term).Ok? && PolygonOf(polygon, term).value.Some?
    ensures polygon.term == term && polygon.posList.Some?
    ensures var segments := Split(polygon.posList.value, ',');
      var vertices := PolygonOf(polygon, term).value.value;
      |vertices| == |segments| &&
      forall k :: 0 <= k < |segments| ==> Coordinates(segments[k]) == Ok(vertices[k])
  {
    var segments := Split(polygon.posList.value, ',');
    CollectEvery(segments, SegmentStep);
  }

  // ------------------------------------------------ first matches

  /** `getContacts(poi)`: the address's vCard text, null for a null POI or an empty address. */
  function GetContacts(poi: Option<Poi>): (r: Option<string>)
    ensures r.None? <==> poi.None? || poi.value.address == ""
    ensures r.Some? ==> r.value == poi.value.address
  {
    if poi.None? || poi.value.address == "" then None else Some(poi.value.address)
  }

  predicate IsCalendar(item: Item, term: string) {
    item.mediaType == CalendarTag && item.term == term
  }

  /** `getCalendar(poi, term)`: the value of the first calendar of the term, or null. */
  method GetCalendar(poi: Option<Poi>, term: string) returns (r: Option<string>)
    ensures r.None? <==> poi.None? || forall j :: 0 <= j < |poi.value.times| ==> !IsCalendar(poi.value.times[j], term)
    ensures r.Some? ==>
      exists k :: 0 <= k < |poi.value.times| && IsCalendar(poi.value.times[k], term) && r.value == poi.value.times[k].value &&
        forall j :: 0 <= j < k ==> !IsCalendar(poi.value.times[j], term)
  {
    if poi.None? {
      return None;
    }
    var k := FirstWhere(poi.value.times, item => IsCalendar(item, term));
    if k < 0 {
      return None;
    }
    return Some(poi.value.times[k].value);
  }

  /** `getLink(poi, term)`: the href of the first link of the term, or null content. */
  method GetLink(poi: Option<Poi>, term: string) returns (r: Content)
    ensures r.data.None? <==> poi.None? || forall j :: 0 <= j < |poi.value.links| ==> poi.value.links[j].term != term
    ensures r.data.Some? ==>
      exists k :: 0 <= k < |poi.value.links| && poi.value.links[k].term == term && r.data.value == poi.value.links[k].href &&
        forall j :: 0 <= j < k ==> poi.value.links[j].term != term
  {
    if poi.None? {
      return Content(None);
    }
    var k := FirstWhere(poi.value.links, (link: Item) => link.term == term);
    if k < 0 {
      return Content(None);
    }
    return Content(Some(poi.value.links[k].href));
  }

  /** `getRelationshipBase(poi, term)`: null for a null POI, else the first relation's base or null content. */
  method GetRelationshipBase(poi: Option<Poi>, term: string) returns (r: Option<Content>)
    ensures r.None? <==> poi.None?
    ensures r.Some? ==> (r.value.data.None? <==>
      forall j :: 0 <= j < |poi.value.relationships| ==> poi.value.relationships[j].term != term)
    ensures r.Some? && r.value.data.Some? ==>
      exists k :: 0 <= k < |poi.value.relationships| && poi.value.relationships[k].term == term &&
        r.value.data.value == poi.value.relationships[k].base &&
        forall j :: 0 <= j < k ==> poi.value.relationships[j].term != term
  {
    if poi.None? {
      return None;
    }
    var k := FirstWhere(poi.value.relationships, (relation: Relation) => relation.term == term);
    if k < 0 {
      return Some(Content(None));
    }
    return Some(Content(Some(poi.value.relationships[k].base)));
  }

  /** The target a relationship names: its POI when it has one, its event otherwise. */
  function Target(relation: Relation): (r: Option<string>)
    ensures relation.targetPoi.Some? ==> r == relation.targetPoi
    ensures relation.targetPoi.None? ==> r == relation.targetEvent
  {
    if relation.targetPoi.Some? then relation.targetPoi else relation.targetEvent
  }

  /** `getRelationshipId(poi, term)`: the first relation's target, or null content. */
  method GetRelationshipId(poi: Option<Poi>, term: string) returns (r: Content)
    ensures poi.None? || (forall j :: 0 <= j < |poi.value.relationships| ==> poi.value.relationships[j].term != term) ==>
      r == Content(None)
    ensures poi.Some? && (exists j :: 0 <= j < |poi.value.relationships| && poi.value.relationships[j].term == term) ==>
      exists k :: 0 <= k < |poi.value.relationships| && poi.value.relationships[k].term == term &&
        r == Content(Target(poi.value.relationships[k])) && forall j :: 0 <= j < k ==> poi.value.relationships[j].term != term
  {
    if poi.None? {
      return Content(None);
    }
    var k := FirstWhere(poi.value.relationships, (relation: Relation) => relation.term == term);
    if k < 0 {
      return Content(None);
    }
    return Content(Target(poi.value.relationships[k]));
  }

  // ------------------------------------------------ tags

  /** What one tag adds: its value when its language is the requested one. */
  function TagOf(tag: TagValue, language: string): Result<Option<Content>> {
    match ParseLocale(tag.lang)
    case Fail(e) => Fail(e)
    case Ok(l) => Ok(if l.language == language then Some(Content(Some(tag.value))) else None)
  }

  function TagStep(language: string): TagValue -> Result<Option<Content>> {
    tag => TagOf(tag, language)
  }

  /** What one tag group adds: its tags in the language; a group without a list throws. */
  function GroupOf(group: Option<seq<TagValue>>, language: string): Result<Option<seq<Content>>> {
    if group.None? then Fail(NullPointer)
    else
      match Collect(group.value, TagStep(language))
      case Fail(e) => Fail(e)
      case Ok(contents) => Ok(Some(contents))
  }

  function GroupStep(language: string): Option<seq<TagValue>> -> Result<Option<seq<Content>>> {
    group => GroupOf(group, language)
  }

  /** The lists one after another. */
  function Flatten<T>(xss: seq<seq<T>>): seq<T> {
    if xss == [] then [] else Flatten(xss[..|xss| - 1]) + xss[|xss| - 1]
  }

  /** What getTags answers for the groups of a tag list. */
  function TagsIn(groups: seq<Option<seq<TagValue>>>, language: string): Result<seq<Content>> {
    match Collect(groups, GroupStep(language))
    case Fail(e) => Fail(e)
    case Ok(chunks) => Ok(Flatten(chunks))
  }

  /** `getTags(list, lang)`: the tags of every group in the language, in order; empty for a null list. */
  method GetTags(list: Option<seq<Option<seq<TagValue>>>>, lang: Locale) returns (r: Result<seq<Content>>)
    ensures list.None? ==> r == Ok([])
    ensures list.Some? ==> r == TagsIn(list.value, lang.language)
  {
    if list.None? {
      return Ok([]);
    }
    var groups := list.value;
    var language := lang.language;
    var tags: seq<Content> := [];
    ghost var chunks: seq<seq<Content>> := [];
    var i := 0;
    while i < |groups|
      invariant 0 <= i <= |groups|
      invariant Collect(groups[..i], GroupStep(language)) == Ok(chunks)
      invariant tags == Flatten(chunks)
    {
      assert groups[..i + 1][..i] == groups[..i];
      if groups[i].None? {
        CollectFailsExtend(groups, GroupStep(language), i + 1);
        return Fail(NullPointer);
      }
      var contents := CollectEach(groups[i].value, TagStep(language));
      if contents.Fail? {
        CollectFailsExtend(groups, GroupStep(language), i + 1);
        return Fail(contents.error);
      }
      assert Flatten(chunks + [contents.value]) == Flatten(chunks) + contents.value;
      tags := tags + contents.value;
      chunks := chunks + [contents.value];
      i := i + 1;
    }
    assert groups[..i] == groups;
    return Ok(tags);
  }

  /** An element of the flattened lists is an element of one of them, and each of their elements is in it. */
  lemma {:induction false} FlattenMembers<T>(xss: seq<seq<T>>)
    ensures forall x :: x in Flatten(xss) ==> exists i :: 0 <= i < |xss| && x in xss[i]
    ensures forall i, x :: 0 <= i < |xss| && x in xss[i] ==> x in Flatten(xss)
    decreases |xss|
  {
    if xss != [] {
      var init := xss[..|xss| - 1];
      FlattenMembers(init);
      assert forall i :: 0 <= i < |init| ==> init[i] == xss[i];
    }
  }

  /** The tag is in the requested language. */
  predicate InLanguage(tag: TagValue, language: string) {
    ParseLocale(tag.lang).Ok? && ParseLocale(tag.lang).value.language == language
  }

  /** One group read without a throw gives exactly the values of its tags in the language. */
  lemma GroupTags(group: seq<TagValue>, language: string)
    requires Collect(group, TagStep(language)).Ok?
    ensures forall c :: c in Collect(group, TagStep(language)).value ==>
      exists t :: t in group && InLanguage(t, language) && c == Content(Some(t.value))
    ensures forall t :: t in group && InLanguage(t, language) ==> Content(Some(t.value)) in Collect(group, TagStep(language)).value
  {
    CollectMembers(group, TagStep(language));
    forall c | c in Collect(group, TagStep(language)).value
      ensures exists t :: t in group && InLanguage(t, language) && c == Content(Some(t.value))
    {
      var k :| 0 <= k < |group| && TagStep(language)(group[k]) == Ok(Some(c));
      assert group[k] in group;
    }
    forall t | t in group && InLanguage(t, language)
      ensures Content(Some(t.value)) in Collect(group, TagStep(language)).value
    {
      var k :| 0 <= k < |group| && group[k] == t;
      assert TagStep(language)(group[k]) == Ok(Some(Content(Some(t.value))));
    }
  }

  /** One group's step: a group with a list that reads without a throw gives its tags. */
  lemma GroupStepOf(group: Option<seq<TagValue>>, language: string)
    ensures GroupStep(language)(group).Ok? <==> group.Some? && Collect(group.value, TagStep(language)).Ok?
    ensures GroupStep(language)(group).Ok? ==>
      GroupStep(language)(group) == Ok(Some(Collect(group.value, TagStep(language)).value))
  {
    assert GroupStep(language)(group) == GroupOf(group, language);
  }

  /** A tag list read without a throw has a list in every group, and each group's tags were read. */
  lemma TagGroupsRead(groups: seq<Option<seq<TagValue>>>, language: string)
    requires TagsIn(groups, language).Ok?
    ensures forall i :: 0 <= i < |groups| ==> groups[i].Some? && Collect(groups[i].value, TagStep(language)).Ok?
    ensures forall i :: 0 <= i < |groups| ==>
      Collect(groups[i].value, TagStep(language)).value in Collect(groups, GroupStep(language)).value
    ensures forall chunk :: chunk in Collect(groups, GroupStep(language)).value ==>
      exists i :: 0 <= i < |groups| && groups[i].Some? && Collect(groups[i].value, TagStep(language)) == Ok(chunk)
  {
    var chunks := Collect(groups, GroupStep(language)).value;
    CollectMembers(groups, GroupStep(language));
    forall i | 0 <= i < |groups|
      ensures groups[i].Some? && Collect(groups[i].value, TagStep(language)).Ok?
      ensures Collect(groups[i].value, TagStep(language)).value in chunks
    {
      GroupStepOf(groups[i], language);
    }
    forall chunk | chunk in chunks
      ensures exists i :: 0 <= i < |groups| && groups[i].Some? && Collect(groups[i].value, TagStep(language)) == Ok(chunk)
    {
      var i :| 0 <= i < |groups| && GroupStep(language)(groups[i]) == Ok(Some(chunk));
      GroupStepOf(groups[i], language);
    }
  }

  /** getTags answers only values of tags in the requested language. */
  lemma TagsAreInLanguage(groups: seq<Option<seq<TagValue>>>, language: string)
    requires TagsIn(groups, language).Ok?
    ensures forall c :: c in TagsIn(groups, language).value ==>
      exists i, t :: 0 <= i < |groups| && groups[i].Some? && t in groups[i].value &&
        InLanguage(t, language) && c == Content(Some(t.value))
  {
    var chunks := Collect(groups, GroupStep(language)).value;
    TagGroupsRead(groups, language);
    FlattenMembers(chunks);
    forall c | c in TagsIn(groups, language).value
      ensures exists i, t ::
        0 <= i < |groups| && groups[i].Some? && t in groups[i].value && InLanguage(t, language) && c == Content(Some(t.value))
    {
      var n :| 0 <= n < |chunks| && c in chunks[n];
      assert chunks[n] in chunks;
      var i :| 0 <= i < |groups| && groups[i].Some? && Collect(groups[i].value, TagStep(language)) == Ok(chunks[n]);
      GroupTags(groups[i].value, language);
    }
  }

  /** getTags answers every tag in the requested language, and every group has a list. */
  lemma TagsInLanguageAreRead(groups: seq<Option<seq<TagValue>>>, language: string)
    requires TagsIn(groups, language).Ok?
    ensures forall i :: 0 <= i < |groups| ==> groups[i].Some?
    ensures forall i, t :: 0 <= i < |groups| && groups[i].Some? && t in groups[i].value && InLanguage(t, language) ==>
      Content(Some(t.value)) in TagsIn(groups, language).value
  {
    var chunks := Collect(groups, GroupStep(language)).value;
    TagGroupsRead(groups, language);
    FlattenMembers(chunks);
    forall i, t | 0 <= i < |groups| && groups[i].Some? && t in groups[i].value && InLanguage(t, language)
      ensures Content(Some(t.value)) in TagsIn(groups, language).value
    {
      GroupTags(groups[i].value, language);
      var chunk := Collect(groups[i].value, TagStep(language)).value;
      var n :| 0 <= n < |chunks| && chunks[n] == chunk;
    }
  }
}
