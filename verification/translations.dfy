/** The dashboard's translation table and the label lookup that falls back to
    the raw key. */
module Translations {

  /** The locales the table defines. */
  datatype Locale = En | Zh

  /** The translation table of one locale, keyed by translation key. Every
      entry is a non-empty string, so the lookup's `|| key` fallback never
      applies to a key the table lists. */
  function Table(lang: Locale): (t: map<string, string>)
    ensures forall key :: key in t ==> t[key] != ""
  {
    match lang
    case En => map[
      "basic_info" := "Basic Information",
      "kernel" := "Kernel",
      "author" := "Author",
      "description" := "Description",
      "dashboard" := "Dashboard",
      "root_impl" := "Root implementation",
      "zygote_monitor" := "Zygote Monitor",
      "running" := "Running",
      "injected" := "Injected",
      "modules" := "Modules",
      "modules_list" := "Running Modules",
      "tracing" := "Tracing",
      "stopped" := "Stopped",
      "exited" := "Exited",
      "unknown" := "Unknown",
      "not_injected" := "Not Injected",
      "crashed" := "Crashed"
    ]
    case Zh => map[
      "basic_info" := "基本信息",
      "kernel" := "内核",
      "author" := "作者",
      "description" := "描述",
      "dashboard" := "仪表板",
      "root_impl" := "Root 实现",
      "zygote_monitor" := "Zygote 监视器",
      "running" := "运行中",
      "injected" := "已注入",
      "modules" := "模块",
      "modules_list" := "运行中的模块",
      "tracing" := "追踪中",
      "stopped" := "已停止",
      "exited" := "已退出",
      "unknown" := "未知",
      "not_injected" := "未注入",
      "crashed" := "已崩溃"
    ]
  }

  /** The table has a translation for `key` in `lang` that is not empty (the
      script's truthiness test on the looked-up string). */
  predicate Translated(lang: Locale, key: string) {
    key in Table(lang) && Table(lang)[key] != ""
  }

  /** `translations[lang][key] || key`: the translation when there is a
      non-empty one, otherwise the key itself. A non-empty key never gets an
      empty label. */
  function Label(lang: Locale, key: string): (r: string)
    ensures Translated(lang, key) ==> r == Table(lang)[key]
    ensures !Translated(lang, key) ==> r == key
    ensures key != "" ==> r != ""
  {
    if Translated(lang, key) then Table(lang)[key] else key
  }

  /** Both locales translate the same keys, and every translation is
      non-empty; so the fallback to the raw key happens for the same keys
      whichever locale is selected. */
  lemma TablesAgreeOnKeys()
    ensures Table(En).Keys == Table(Zh).Keys
    ensures forall lang: Locale, key :: key in Table(lang) ==> Translated(lang, key)
  {
  }

  /** A key with no translation is shown as itself in every locale. */
  lemma LabelFallback(key: string)
    requires key !in Table(En)
    ensures forall lang: Locale :: Label(lang, key) == key
  {
    TablesAgreeOnKeys();
  }
}
