/** The status badges of the dashboard: the three-way classification of status
    strings, and the state of one badge slot as `updateStatusBadge` and the
    re-labelling in `setLanguage` change it. */
module Status {
  import opened Optional
  import opened Translations

  /** The three visual states of a badge. */
  datatype StatusClass = Positive | Negative | Indeterminate

  /** The colour classes a badge can carry. */
  datatype Colour = Green | Red | Gray

  /** The icon shown in a badge: one of the script's three fixed SVG icons, or
      whatever other markup the page had there. Markup equal to one of the
      three icons is represented by that icon's token, never by `OtherMarkup`.
      The placeholder `span` the script inserts when the badge has no SVG is
      represented by the slot having no icon at all (`icon == None`). */
  datatype Icon = CheckIcon | CrossIcon | UnknownIcon | OtherMarkup(html: string)

  const PositiveStatuses: set<string> := {"running", "injected", "tracing"}
  const NegativeStatuses: set<string> := {"crashed", "not_injected", "stopped", "exited"}

  /** The fixed membership test: the positive list first, then the negative
      list, everything else (including "unknown" and the empty string) is
      indeterminate. The classification is total: every string has exactly one
      class. */
  function Classify(status: string): (c: StatusClass)
    ensures c == Positive <==> status in PositiveStatuses
    ensures c == Negative <==> status in NegativeStatuses
    ensures c == Indeterminate <==> status !in PositiveStatuses + NegativeStatuses
  {
    if status in PositiveStatuses then Positive
    else if status in NegativeStatuses then Negative
    else Indeterminate
  }

  function ColourOf(c: StatusClass): Colour
  {
    match c
    case Positive => Green
    case Negative => Red
    case Indeterminate => Gray
  }

  function IconOf(c: StatusClass): Icon
  {
    match c
    case Positive => CheckIcon
    case Negative => CrossIcon
    case Indeterminate => UnknownIcon
  }

  /** The two status lists are disjoint, so the order of the two tests in the
      script does not matter; and a badge's colour, like its icon, determines
      its class: each class is bound to exactly one colour and one icon. */
  lemma ClassificationWellDefined()
    ensures PositiveStatuses !! NegativeStatuses
    ensures forall a: StatusClass, b: StatusClass :: ColourOf(a) == ColourOf(b) ==> a == b
    ensures forall a: StatusClass, b: StatusClass :: IconOf(a) == IconOf(b) ==> a == b
    ensures forall a: StatusClass :: !IconOf(a).OtherMarkup?
  {
  }

  /** The classes of the known status vocabulary, one by one. */
  lemma ClassifyVocabulary()
    ensures Classify("running") == Positive && Classify("injected") == Positive
    ensures Classify("tracing") == Positive
    ensures Classify("crashed") == Negative && Classify("not_injected") == Negative
    ensures Classify("stopped") == Negative && Classify("exited") == Negative
    ensures Classify("unknown") == Indeterminate && Classify("") == Indeterminate
  {
  }

  /** One status slot: the `val-…` text element, and, when its parent element
      has the `badge` class, that badge's `data-status` attribute, colour
      classes and icon. `iconWrites` counts how often the icon has been
      replaced, which makes the script's replace-only-if-different rule
      observable. */
  datatype StatusSlot = StatusSlot(
    text: string,
    inBadge: bool,
    dataStatus: Option<string>,
    colours: set<Colour>,
    icon: Option<Icon>,
    iconWrites: nat)

  /** `updateStatusBadge` on an existing element. An absent or empty status
      changes nothing. Otherwise the text becomes the status's label; and if
      the parent is a badge it records the status, carries exactly the colour
      of the status's class, and shows that class's icon, which is written
      only when the badge did not already show it. */
  function UpdateStatusBadge(slot: StatusSlot, lang: Locale, status: Option<string>): (r: StatusSlot)
    ensures !Truthy(status) ==> r == slot
    ensures Truthy(status) ==> r.text == Label(lang, status.value) && r.inBadge == slot.inBadge
    ensures Truthy(status) && !slot.inBadge ==> r == slot.(text := r.text)
    ensures Truthy(status) && slot.inBadge ==>
              && r.dataStatus == status
              && r.colours == {ColourOf(Classify(status.value))}
              && r.icon == Some(IconOf(Classify(status.value)))
              && r.iconWrites == (if slot.icon == r.icon then slot.iconWrites else slot.iconWrites + 1)
  {
    if !Truthy(status) then slot
    else
      var s := status.value;
      var labelled := slot.(text := Label(lang, s));
      if !slot.inBadge then labelled
      else
        var c := Classify(s);
        var icon := Some(IconOf(c));
        labelled.(
          dataStatus := Some(s),
          colours := {ColourOf(c)},
          icon := icon,
          iconWrites := if slot.icon == icon then slot.iconWrites else slot.iconWrites + 1)
  }

  /** The re-labelling of `setLanguage`: a badge with a stored status gets the
      label of that status in the new locale; nothing else about the slot
      changes, and slots outside a badge or without a stored status are left
      alone. */
  function Relabel(slot: StatusSlot, lang: Locale): (r: StatusSlot)
    ensures r.inBadge == slot.inBadge && r.dataStatus == slot.dataStatus
    ensures r.colours == slot.colours && r.icon == slot.icon && r.iconWrites == slot.iconWrites
    ensures slot.inBadge && slot.dataStatus.Some? ==> r.text == Label(lang, slot.dataStatus.value)
    ensures !(slot.inBadge && slot.dataStatus.Some?) ==> r == slot
  {
    if slot.inBadge && slot.dataStatus.Some? then slot.(text := Label(lang, slot.dataStatus.value))
    else slot
  }

  /** Rendering the same status twice gives the same slot as rendering it once:
      in particular the icon is not written a second time. */
  lemma UpdateIdempotent(slot: StatusSlot, lang: Locale, status: Option<string>)
    ensures UpdateStatusBadge(UpdateStatusBadge(slot, lang, status), lang, status)
            == UpdateStatusBadge(slot, lang, status)
  {
  }

  /** Switching the locale after an update gives the slot the update would have
      produced in the new locale: the stored status is enough to re-derive the
      label, and the classification is not recomputed. */
  lemma RelabelAfterUpdate(slot: StatusSlot, l1: Locale, l2: Locale, status: string)
    requires slot.inBadge && status != ""
    ensures Relabel(UpdateStatusBadge(slot, l1, Some(status)), l2)
            == UpdateStatusBadge(slot, l2, Some(status))
  {
  }

  /** Only the last locale switch matters. */
  lemma RelabelTwice(slot: StatusSlot, l1: Locale, l2: Locale)
    ensures Relabel(Relabel(slot, l1), l2) == Relabel(slot, l2)
  {
  }

  /** Updating a badge slot and then switching the locale is the same as
      switching first and updating in the new locale. */
  lemma UpdateCommutesWithRelabel(slot: StatusSlot, l1: Locale, l2: Locale, status: Option<string>)
    requires slot.inBadge
    ensures Relabel(UpdateStatusBadge(slot, l1, status), l2)
            == UpdateStatusBadge(Relabel(slot, l2), l2, status)
  {
  }
}
