/** The dashboard page as `parseModuleProp` and `setLanguage` change it: the
    text elements filled from the parsed record, the status badges, the
    running-modules list, and the elements carrying a `data-i18n` key. */
module Dashboard {
  import opened Optional
  import opened PropParser
  import opened Translations
  import opened Status
  import opened ModulesList

  /** An element with a `data-i18n` attribute: its translation key and the
      text it currently shows. */
  datatype I18nText = I18nText(key: string, text: string)

  /** The page: the selected locale, the plain text elements by id, the
      `data-i18n` elements in document order, the status elements by id, and
      the modules list (`None` when the page has no `modules-list` element).
      An id missing from `texts` or `badges` is an element the page does not
      have. */
  datatype View = View(
    lang: Locale,
    texts: map<string, string>,
    i18n: seq<I18nText>,
    badges: map<string, StatusSlot>,
    modules: Option<seq<string>>)

  /** An element id and the record field rendered into it. */
  type Binding = (string, string)

  /** The text elements `parseModuleProp` fills, in the order it fills them. */
  const TextBindings: seq<Binding> := [
    ("prop-name", "name"),
    ("prop-version", "version"),
    ("prop-author", "author"),
    ("val-root", "root_implementation"),
    ("device-kernel", "device_kernel"),
    ("device-sdk", "device_sdk"),
    ("device-abi", "device_abi"),
    ("val-modules-count", "modules_count")
  ]

  /** The status elements `parseModuleProp` renders as badges. */
  const BadgeBindings: seq<Binding> := [
    ("val-monitor", "monitor_status"),
    ("val-zygote64", "zygote_64_status"),
    ("val-daemon64", "daemon_64_status")
  ]

  /** The ids a list of bindings writes to. */
  function BoundIds(bs: seq<Binding>): (ids: set<string>)
    ensures forall i :: 0 <= i < |bs| ==> bs[i].0 in ids
    ensures forall id :: id in ids ==> exists i :: 0 <= i < |bs| && bs[i].0 == id
  {
    set i | 0 <= i < |bs| :: bs[i].0
  }

  /** No element is written twice. */
  predicate DistinctIds(bs: seq<Binding>) {
    forall i, j :: 0 <= i < j < |bs| ==> bs[i].0 != bs[j].0
  }

  /** `updateText` on an existing element: a truthy value replaces the text,
      anything else leaves it. */
  function SetText(current: string, value: Option<string>): (r: string)
    ensures Truthy(value) ==> r == value.value
    ensures !Truthy(value) ==> r == current
  {
    if Truthy(value) then value.value else current
  }

  /** `document.getElementById(id)` followed by an update of the element when
      it exists: a missing element is skipped, no element is created, and no
      other element changes. */
  function UpdateElement<V>(slots: map<string, V>, id: string, value: Option<string>,
                            update: (V, Option<string>) -> V): (r: map<string, V>)
    ensures r.Keys == slots.Keys
    ensures forall x :: x in slots && x != id ==> r[x] == slots[x]
    ensures id in slots ==> r[id] == update(slots[id], value)
  {
    if id in slots then slots[id := update(slots[id], value)] else slots
  }

  /** `updateText(id, value)`: the element's text becomes the value when the
      value is truthy and the element exists; otherwise the page is
      unchanged. Writing the same value twice is writing it once. */
  lemma UpdateTextSemantics(texts: map<string, string>, id: string, value: Option<string>)
    ensures !Truthy(value) ==> UpdateElement(texts, id, value, SetText) == texts
    ensures Truthy(value) && id in texts ==> UpdateElement(texts, id, value, SetText)[id] == value.value
    ensures UpdateElement(UpdateElement(texts, id, value, SetText), id, value, SetText)
            == UpdateElement(texts, id, value, SetText)
  {
  }

  /** Rendering the fields of a record into the elements named by the
      bindings, in order, with `update` applied to each element that exists.
      No element is created, and elements no binding names are untouched. */
  function ApplyAll<V>(slots: map<string, V>, bs: seq<Binding>, data: Record,
                       update: (V, Option<string>) -> V): (r: map<string, V>)
    ensures r.Keys == slots.Keys
    ensures forall id :: id in slots && id !in BoundIds(bs) ==> r[id] == slots[id]
    decreases |bs|
  {
    if |bs| == 0 then slots
    else
      var n := |bs| - 1;
      var m := ApplyAll(slots, bs[..n], data, update);
      assert BoundIds(bs) == BoundIds(bs[..n]) + {bs[n].0};
      UpdateElement(m, bs[n].0, Get(data, bs[n].1), update)
  }

  /** With distinct ids, each bound element that exists ends up as `update`
      applied once, to its original content and its own field. */
  lemma {:induction false} ApplyAllBound<V>(slots: map<string, V>, bs: seq<Binding>, data: Record,
                                            update: (V, Option<string>) -> V, i: nat)
    requires DistinctIds(bs) && i < |bs| && bs[i].0 in slots
    ensures ApplyAll(slots, bs, data, update)[bs[i].0] == update(slots[bs[i].0], Get(data, bs[i].1))
    decreases |bs|
  {
    var n := |bs| - 1;
    var init := bs[..n];
    assert DistinctIds(init);
    if i == n {
      assert bs[n].0 !in BoundIds(init);
    } else {
      assert init[i] == bs[i];
      ApplyAllBound(slots, init, data, update, i);
    }
  }

  /** An update that is idempotent makes the whole rendering idempotent. */
  lemma ApplyAllIdempotent<V>(slots: map<string, V>, bs: seq<Binding>, data: Record,
                              update: (V, Option<string>) -> V)
    requires DistinctIds(bs)
    requires forall x, v :: update(update(x, v), v) == update(x, v)
    ensures ApplyAll(ApplyAll(slots, bs, data, update), bs, data, update)
            == ApplyAll(slots, bs, data, update)
  {
    var once := ApplyAll(slots, bs, data, update);
    var twice := ApplyAll(once, bs, data, update);
    forall id | id in slots
      ensures twice[id] == once[id]
    {
      if id in BoundIds(bs) {
        var i :| 0 <= i < |bs| && bs[i].0 == id;
        ApplyAllBound(slots, bs, data, update, i);
        ApplyAllBound(once, bs, data, update, i);
      }
    }
  }

  /** A record with none of the bound fields changes nothing, provided the
      update leaves an element alone for an absent field. */
  lemma {:induction false} ApplyAllAbsent<V>(slots: map<string, V>, bs: seq<Binding>, data: Record,
                                             update: (V, Option<string>) -> V)
    requires forall i :: 0 <= i < |bs| ==> bs[i].1 !in data
    requires forall x :: update(x, None) == x
    ensures ApplyAll(slots, bs, data, update) == slots
    decreases |bs|
  {
    if |bs| > 0 {
      ApplyAllAbsent(slots, bs[..|bs| - 1], data, update);
    }
  }

  /** `updateStatusBadge` in a fixed locale, as an update of one element. */
  function BadgeUpdate(lang: Locale): (f: (StatusSlot, Option<string>) -> StatusSlot)
    ensures forall s, v :: f(s, v) == UpdateStatusBadge(s, lang, v)
  {
    (s: StatusSlot, v: Option<string>) => UpdateStatusBadge(s, lang, v)
  }

  /** Everything `parseModuleProp` does after building the record: the text
      elements, the status badges in the page's current locale, the modules
      count (a text element), and the modules list. The locale and the
      `data-i18n` elements are not touched, and no element appears or
      disappears. */
  function ApplyRecord(view: View, data: Record): (r: View)
    ensures r.lang == view.lang && r.i18n == view.i18n
    ensures r.texts.Keys == view.texts.Keys && r.badges.Keys == view.badges.Keys
    ensures r.modules == UpdateModulesList(view.modules, Get(data, "modules_list"))
  {
    view.(
      texts := ApplyAll(view.texts, TextBindings, data, SetText),
      badges := ApplyAll(view.badges, BadgeBindings, data, BadgeUpdate(view.lang)),
      modules := UpdateModulesList(view.modules, Get(data, "modules_list")))
  }

  /** `parseModuleProp(text)` on the page: the locale and the `data-i18n`
      elements are untouched, no element appears or disappears, and the list
      element exists afterwards exactly when it existed before. */
  function Refresh(view: View, text: string): (r: View)
    ensures r.lang == view.lang && r.i18n == view.i18n
    ensures r.texts.Keys == view.texts.Keys && r.badges.Keys == view.badges.Keys
    ensures r.modules.Some? <==> view.modules.Some?
  {
    ApplyRecord(view, Parse(text))
  }

  /** What the `exec` bridge returned for `cat module.prop`: `None` when the
      call threw, otherwise its error number and standard output. */
  datatype ExecResult = ExecResult(errno: int, stdout: string)

  const LoadFailedTitle := "NeoZygisk (Load Failed)"
  const ErrorTitle := "NeoZygisk (Error)"

  /** The read succeeded: error number 0 and non-empty output. */
  predicate Loaded(result: Option<ExecResult>) {
    result.Some? && result.value.errno == 0 && result.value.stdout != ""
  }

  /** `fetchAndParseModuleProp` with the bridge call's outcome as input: a
      successful read is parsed and rendered; a failed read or a thrown call
      only puts a placeholder title into `prop-name`. */
  function FetchAndParse(view: View, result: Option<ExecResult>): (r: View)
    ensures Loaded(result) ==> r == Refresh(view, result.value.stdout)
    ensures !Loaded(result) ==>
              && r == view.(texts := r.texts)
              && r.texts.Keys == view.texts.Keys
              && (forall id :: id in view.texts && id != "prop-name" ==> r.texts[id] == view.texts[id])
              && ("prop-name" in view.texts ==>
                    r.texts["prop-name"] == if result.None? then ErrorTitle else LoadFailedTitle)
  {
    if result.None? then
      view.(texts := UpdateElement(view.texts, "prop-name", Some(ErrorTitle), SetText))
    else if Loaded(result) then
      Refresh(view, result.value.stdout)
    else
      view.(texts := UpdateElement(view.texts, "prop-name", Some(LoadFailedTitle), SetText))
  }

  /** Pressing refresh again with the same outcome changes nothing. */
  lemma FetchAndParseIdempotent(view: View, result: Option<ExecResult>)
    ensures FetchAndParse(FetchAndParse(view, result), result) == FetchAndParse(view, result)
  {
    if Loaded(result) {
      RefreshIdempotent(view, result.value.stdout);
    }
  }

  lemma BindingsDistinct()
    ensures DistinctIds(TextBindings) && DistinctIds(BadgeBindings)
  {
  }

  /** Rendering a record a second time changes nothing: text updates,
      badge updates (icons included) and the list rebuild are all
      idempotent. */
  lemma ApplyRecordIdempotent(view: View, data: Record)
    ensures ApplyRecord(ApplyRecord(view, data), data) == ApplyRecord(view, data)
  {
    BindingsDistinct();
    forall x, v
      ensures SetText(SetText(x, v), v) == SetText(x, v)
    {
    }
    ApplyAllIdempotent(view.texts, TextBindings, data, SetText);
    var f := BadgeUpdate(view.lang);
    forall x, v
      ensures f(f(x, v), v) == f(x, v)
    {
      UpdateIdempotent(x, view.lang, v);
    }
    ApplyAllIdempotent(view.badges, BadgeBindings, data, f);
  }

  /** Loading the same `module.prop` twice shows the same page as loading it
      once. */
  lemma RefreshIdempotent(view: View, text: string)
    ensures Refresh(Refresh(view, text), text) == Refresh(view, text)
  {
    ApplyRecordIdempotent(view, Parse(text));
  }

  /** An empty record leaves the page exactly as it was. */
  lemma ApplyRecordEmpty(view: View)
    ensures ApplyRecord(view, map[]) == view
  {
    ApplyAllAbsent(view.texts, TextBindings, map[], SetText);
    var f := BadgeUpdate(view.lang);
    ApplyAllAbsent(view.badges, BadgeBindings, map[], f);
  }

  /** A file with no `=` at all (empty output, an error message) leaves the
      page exactly as it was. */
  lemma RefreshWithoutEquals(view: View, text: string)
    requires '=' !in text
    ensures Refresh(view, text) == view
  {
    ParseWithoutEquals(text);
    ApplyRecordEmpty(view);
  }

  /** Each text element that exists shows its field when the field is truthy
      and keeps its text otherwise; each status element that exists is
      rendered from its field in the page's locale. */
  lemma ApplyRecordElements(view: View, data: Record)
    ensures forall i :: 0 <= i < |TextBindings| && TextBindings[i].0 in view.texts ==>
              ApplyRecord(view, data).texts[TextBindings[i].0]
              == SetText(view.texts[TextBindings[i].0], Get(data, TextBindings[i].1))
    ensures forall i :: 0 <= i < |BadgeBindings| && BadgeBindings[i].0 in view.badges ==>
              ApplyRecord(view, data).badges[BadgeBindings[i].0]
              == UpdateStatusBadge(view.badges[BadgeBindings[i].0], view.lang, Get(data, BadgeBindings[i].1))
  {
    BindingsDistinct();
    forall i | 0 <= i < |TextBindings| && TextBindings[i].0 in view.texts {
      ApplyAllBound(view.texts, TextBindings, data, SetText, i);
    }
    forall i | 0 <= i < |BadgeBindings| && BadgeBindings[i].0 in view.badges {
      ApplyAllBound(view.badges, BadgeBindings, data, BadgeUpdate(view.lang), i);
    }
  }

  /** The `setLanguage` loop over `data-i18n` elements: an element whose key
      has a non-empty translation shows it, any other element keeps its
      text. */
  function Translate(e: I18nText, lang: Locale): (r: I18nText)
    ensures r.key == e.key
    ensures Translated(lang, e.key) ==> r.text == Label(lang, e.key)
    ensures !Translated(lang, e.key) ==> r == e
  {
    if Translated(lang, e.key) then e.(text := Table(lang)[e.key]) else e
  }

  /** `setLanguage(lang)`: records the locale, translates the `data-i18n`
      elements and re-labels every badge with a stored status. The text
      elements and the modules list are not touched. */
  function SetLanguage(view: View, lang: Locale): (r: View)
    ensures r.lang == lang && r.texts == view.texts && r.modules == view.modules
    ensures |r.i18n| == |view.i18n|
    ensures forall i :: 0 <= i < |view.i18n| ==> r.i18n[i] == Translate(view.i18n[i], lang)
    ensures r.badges.Keys == view.badges.Keys
    ensures forall id :: id in view.badges ==> r.badges[id] == Relabel(view.badges[id], lang)
  {
    view.(
      lang := lang,
      i18n := seq(|view.i18n|, i requires 0 <= i < |view.i18n| => Translate(view.i18n[i], lang)),
      badges := RelabelAll(view.badges, lang))
  }

  /** The badge loop of `setLanguage`, over every status element. */
  function RelabelAll(badges: map<string, StatusSlot>, lang: Locale): (r: map<string, StatusSlot>)
    ensures r.Keys == badges.Keys
    ensures forall id :: id in badges ==> r[id] == Relabel(badges[id], lang)
  {
    map id | id in badges :: Relabel(badges[id], lang)
  }

  /** Both locales translate the same keys, so translating twice is
      translating once into the second locale. */
  lemma TranslateTwice(e: I18nText, l1: Locale, l2: Locale)
    ensures Translate(Translate(e, l1), l2) == Translate(e, l2)
  {
    TablesAgreeOnKeys();
    assert Translated(l1, e.key) <==> Translated(l2, e.key);
  }

  /** Only the last locale switch matters: no text of an earlier locale
      survives a switch. */
  lemma SetLanguageTwice(view: View, l1: Locale, l2: Locale)
    ensures SetLanguage(SetLanguage(view, l1), l2) == SetLanguage(view, l2)
  {
    var a := SetLanguage(SetLanguage(view, l1), l2);
    var b := SetLanguage(view, l2);
    forall i | 0 <= i < |view.i18n|
      ensures a.i18n[i] == b.i18n[i]
    {
      TranslateTwice(view.i18n[i], l1, l2);
    }
    forall id | id in view.badges
      ensures a.badges[id] == b.badges[id]
    {
      RelabelTwice(view.badges[id], l1, l2);
    }
  }

  /** When every status element the record renders sits inside a badge,
      switching the locale after loading the file gives the same page as
      loading it in the new locale. */
  lemma SetLanguageAfterApply(view: View, data: Record, lang: Locale)
    requires forall i :: 0 <= i < |BadgeBindings| && BadgeBindings[i].0 in view.badges ==>
               view.badges[BadgeBindings[i].0].inBadge
    ensures SetLanguage(ApplyRecord(view, data), lang) == ApplyRecord(SetLanguage(view, lang), data)
  {
    RelabelAfterBadges(view.badges, data, view.lang, lang);
  }

  lemma RelabelAfterBadges(badges: map<string, StatusSlot>, data: Record, l1: Locale, l2: Locale)
    requires forall i :: 0 <= i < |BadgeBindings| && BadgeBindings[i].0 in badges ==>
               badges[BadgeBindings[i].0].inBadge
    ensures RelabelAll(ApplyAll(badges, BadgeBindings, data, BadgeUpdate(l1)), l2)
            == ApplyAll(RelabelAll(badges, l2), BadgeBindings, data, BadgeUpdate(l2))
  {
    var a := RelabelAll(ApplyAll(badges, BadgeBindings, data, BadgeUpdate(l1)), l2);
    var b := ApplyAll(RelabelAll(badges, l2), BadgeBindings, data, BadgeUpdate(l2));
    forall id | id in badges
      ensures a[id] == b[id]
    {
      RelabelAfterBadge(badges, data, l1, l2, id);
    }
    SameMaps(a, b, badges.Keys);
  }

  lemma SameMaps<V>(a: map<string, V>, b: map<string, V>, keys: set<string>)
    requires a.Keys == keys && b.Keys == keys
    requires forall k :: k in keys ==> a[k] == b[k]
    ensures a == b
  {
  }

  lemma RelabelAfterBadge(badges: map<string, StatusSlot>, data: Record, l1: Locale, l2: Locale, id: string)
    requires forall i :: 0 <= i < |BadgeBindings| && BadgeBindings[i].0 in badges ==>
               badges[BadgeBindings[i].0].inBadge
    requires id in badges
    ensures RelabelAll(ApplyAll(badges, BadgeBindings, data, BadgeUpdate(l1)), l2)[id]
            == ApplyAll(RelabelAll(badges, l2), BadgeBindings, data, BadgeUpdate(l2))[id]
  {
    if id in BoundIds(BadgeBindings) {
      var i :| 0 <= i < |BadgeBindings| && BadgeBindings[i].0 == id;
      BindingsDistinct();
      ApplyAllBound(badges, BadgeBindings, data, BadgeUpdate(l1), i);
      ApplyAllBound(RelabelAll(badges, l2), BadgeBindings, data, BadgeUpdate(l2), i);
      UpdateCommutesWithRelabel(badges[id], l1, l2, Get(data, BadgeBindings[i].1));
    }
  }
}
