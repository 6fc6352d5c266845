/** The badge drawn over a dock icon (`Badge`): its type and corner, and
    what it displays: the count text, and CSS classes on its container that
    are added and, except "badge-hidden", never removed. The widgets are
    modelled as the container's class set and its list of labels. */
module Badge {
  import opened Text

  type U32 = x: nat | x < 0x1_0000_0000

  /** The progress value is an `f64`; it is only logged, so it is carried
      as an exact real. */
  datatype BadgeType = Count(count: U32) | Progress(progress: real) | Attention | Custom(icon: string)

  datatype BadgePosition = TopRight | BottomRight | TopLeft | BottomLeft | Center

  datatype Label = Label(text: string, classes: set<string>)

  /** The text of a count badge: the number, or "99+" above 99. */
  function CountText(count: nat): (r: string)
    ensures count > 99 ==> r == "99+"
    ensures count <= 99 ==>
      1 <= |r| <= 2 && (forall i :: 0 <= i < |r| ==> IsDigit(r[i])) && DecimalValue(r) == count
    ensures count <= 99 && |r| == 2 ==> r[0] != '0'
  {
    DecimalRoundTrip(count);
    if count > 99 then "99+" else NatToString(count)
  }

  function PositionClass(p: BadgePosition): string {
    match p
    case TopRight => "badge-top-right"
    case BottomRight => "badge-bottom-right"
    case TopLeft => "badge-top-left"
    case BottomLeft => "badge-bottom-left"
    case Center => "badge-center"
  }

  /** The class each type adds. */
  function TypeClass(t: BadgeType): string {
    match t
    case Count(_) => "badge-count"
    case Progress(_) => "badge-progress"
    case Attention => "badge-attention"
    case Custom(_) => "badge-custom"
  }

  /** The container's classes after `update_display`. */
  function ClassesFor(classes: set<string>, t: BadgeType, p: BadgePosition): set<string> {
    (match t
     case Count(0) => classes + {"badge-hidden"}
     case _ => classes - {"badge-hidden"} + {TypeClass(t)})
    + {PositionClass(p)}
  }

  /** The labels after `update_display`: one, with the count text, for a
      non-zero count; none otherwise. */
  function LabelsFor(t: BadgeType): seq<Label> {
    match t
    case Count(n) => if n > 0 then [Label(CountText(n), {"badge-label"})] else []
    case _ => []
  }

  /** A zero count leaves the badge hidden without a label; any other type
      shows it, with the class of its type; the position class is always
      present; and the other classes accumulate. */
  lemma DisplayRules(classes: set<string>, t: BadgeType, p: BadgePosition)
    ensures t == Count(0) ==> "badge-hidden" in ClassesFor(classes, t, p) && LabelsFor(t) == []
    ensures t != Count(0) && PositionClass(p) != "badge-hidden" ==>
      "badge-hidden" !in ClassesFor(classes, t, p) && TypeClass(t) in ClassesFor(classes, t, p)
    ensures PositionClass(p) in ClassesFor(classes, t, p)
    ensures classes - {"badge-hidden"} <= ClassesFor(classes, t, p)
    ensures |LabelsFor(t)| <= 1
  {
  }

  /** Classes of earlier types stay: after Count(5) then Attention the
      container carries both "badge-count" and "badge-attention". */
  lemma ClassesAccumulate(classes: set<string>, p: BadgePosition)
    ensures var c := ClassesFor(ClassesFor(classes, Count(5), p), Attention, p);
      "badge-count" in c && "badge-attention" in c
  {
  }

  class Badge {
    var badgeType: BadgeType
    var position: BadgePosition
    var classes: set<string>
    var labels: seq<Label>

    /** `new`: the "badge" and "badge-hidden" classes, then a first update. */
    constructor (t: BadgeType, p: BadgePosition)
      ensures badgeType == t && position == p
      ensures classes == ClassesFor({"badge", "badge-hidden"}, t, p) && labels == LabelsFor(t)
    {
      badgeType := t;
      position := p;
      classes := {"badge", "badge-hidden"};
      labels := [];
      new;
      UpdateDisplay();
    }

    method SetType(t: BadgeType)
      modifies this
      ensures badgeType == t && position == old(position)
      ensures classes == ClassesFor(old(classes), t, position) && labels == LabelsFor(t)
    {
      badgeType := t;
      UpdateDisplay();
    }

    /** `update_display`: remove every child, then set the classes and
        label for the type, then add the position class. */
    method UpdateDisplay()
      modifies this
      ensures badgeType == old(badgeType) && position == old(position)
      ensures classes == ClassesFor(old(classes), badgeType, position) && labels == LabelsFor(badgeType)
    {
      while labels != []
        invariant badgeType == old(badgeType) && position == old(position) && classes == old(classes)
        decreases |labels|
      {
        labels := labels[1..];
      }
      match badgeType {
      case Count(count) =>
        if count > 0 {
          classes := classes - {"badge-hidden"};
          classes := classes + {"badge-count"};
          labels := labels + [Label(CountText(count), {"badge-label"})];
        } else {
          classes := classes + {"badge-hidden"};
        }
      case Progress(_) =>
        classes := classes - {"badge-hidden"};
        classes := classes + {"badge-progress"};
      case Attention =>
        classes := classes - {"badge-hidden"};
        classes := classes + {"badge-attention"};
      case Custom(_) =>
        classes := classes - {"badge-hidden"};
        classes := classes + {"badge-custom"};
      }
      classes := classes + {PositionClass(position)};
    }
  }
}
