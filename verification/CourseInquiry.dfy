/** The course-card inquiry: collecting a card's feature labels, composing
    the subject and the multi-line body of the inquiry e-mail, and building
    the `mailto:` link that the card opens. */
module CourseInquiry {
  import opened Wrappers
  import opened JsText
  import opened UriComponent
  import opened Mailto
  import opened InquiryText

  /** One `li` of a card's `ul`: the text content of its first `span`, or
      `None` when it has no `span`. */
  datatype ListItem = ListItem(span: Option<string>)

  /** A course card as the handler reads it: its `data-course` and
      `data-price` attributes (`None` when absent) and its list items in
      document order. */
  datatype CourseCard = CourseCard(course: Option<string>, price: Option<string>, items: seq<ListItem>)

  /** The address every inquiry goes to. */
  const Email := "edisonkipkemoi319@gmail.com"

  /** How a template literal renders an attribute read with `getAttribute`:
      a missing attribute is `null` and prints as "null". */
  function Interpolate(attribute: Option<string>): (r: string)
    ensures attribute.Some? ==> r == attribute.value
    ensures attribute.None? ==> r == "null"
  {
    match attribute
    case Some(text) => text
    case None => "null"
  }

  /** Whether a key activates a focused course card: Enter or Space only. */
  function IsActivationKey(key: string): (r: bool)
    ensures r <==> key in {"Enter", " "}
  {
    key == "Enter" || key == " "
  }

  /** The label one list item contributes: its span's text, trimmed, unless
      there is no span or the trimmed text is empty. */
  function ItemLabel(item: ListItem): (r: Option<string>)
    ensures r.Some? ==> r.value != "" && IsTrimmed(r.value)
    ensures r.Some? <==> item.span.Some? && !AllSpace(item.span.value)
    ensures r.Some? ==> r.value == Trim(item.span.value)
  {
    match item.span
    case None => None
    case Some(text) =>
      var trimmed := Trim(text);
      if trimmed != "" then Some(trimmed) else None
  }

  function LabelList(item: ListItem): seq<string> {
    match ItemLabel(item)
    case Some(feature) => [feature]
    case None => []
  }

  /** The feature labels of a card, in list order; there are at most as many
      as list items. */
  function FeatureLabels(items: seq<ListItem>): (r: seq<string>)
    ensures |r| <= |items|
  {
    if items == [] then []
    else FeatureLabels(items[..|items| - 1]) + LabelList(items[|items| - 1])
  }

  /** Every feature label is non-empty and trimmed. */
  lemma {:induction false} FeatureLabelsTrimmed(items: seq<ListItem>)
    ensures forall i :: 0 <= i < |FeatureLabels(items)| ==>
              FeatureLabels(items)[i] != "" && IsTrimmed(FeatureLabels(items)[i])
    decreases |items|
  {
    if items != [] {
      FeatureLabelsTrimmed(items[..|items| - 1]);
    }
  }

  /** The labels of two runs of list items are the labels of the first run
      followed by those of the second. */
  lemma {:induction false} FeatureLabelsAppend(a: seq<ListItem>, b: seq<ListItem>)
    ensures FeatureLabels(a + b) == FeatureLabels(a) + FeatureLabels(b)
  {
    if b == [] {
      assert a + b == a;
    } else {
      var n := |b| - 1;
      var ab := a + b;
      DropLast(a, b);
      assert FeatureLabels(ab) == FeatureLabels(a + b[..n]) + LabelList(b[n]);
      assert FeatureLabels(b) == FeatureLabels(b[..n]) + LabelList(b[n]);
      FeatureLabelsAppend(a, b[..n]);
      ConcatAssoc(FeatureLabels(a), FeatureLabels(b[..n]), LabelList(b[n]));
    }
  }

  lemma DropLast(a: seq<ListItem>, b: seq<ListItem>)
    requires b != []
    ensures (a + b)[..|a + b| - 1] == a + b[..|b| - 1] && (a + b)[|a + b| - 1] == b[|b| - 1]
  {
  }

  lemma FeatureLabelsSnoc(items: seq<ListItem>, item: ListItem)
    ensures FeatureLabels(items + [item]) == FeatureLabels(items) + LabelList(item)
  {
    DropLast(items, [item]);
  }

  /** The loop of the click handler that pushes each item's label. */
  method CollectFeatures(items: seq<ListItem>) returns (features: seq<string>)
    ensures features == FeatureLabels(items)
  {
    features := [];
    var i := 0;
    while i < |items|
      invariant 0 <= i <= |items|
      invariant features == FeatureLabels(items[..i])
    {
      ghost var before := features;
      CollectStep(items, i);
      match items[i].span {
        case Some(text) =>
          LabelListOfText(items[i], text);
          var trimmed := Trim(text);
          if trimmed != "" {
            features := features + [trimmed];
          }
        case None =>
      }
      assert features == before + LabelList(items[i]);
      i := i + 1;
    }
    assert items[..|items|] == items;
  }

  lemma CollectStep(items: seq<ListItem>, i: nat)
    requires i < |items|
    ensures FeatureLabels(items[..i + 1]) == FeatureLabels(items[..i]) + LabelList(items[i])
  {
    PrefixSnoc(items, i);
    FeatureLabelsSnoc(items[..i], items[i]);
  }

  lemma PrefixSnoc(items: seq<ListItem>, i: nat)
    requires i < |items|
    ensures items[..i + 1] == items[..i] + [items[i]]
  {
  }

  lemma LabelListOfText(item: ListItem, text: string)
    requires item.span == Some(text)
    ensures LabelList(item) == if Trim(text) == "" then [] else [Trim(text)]
  {
  }

  /** An item without a span, or whose text is only white space, adds no
      label wherever it stands in the list. */
  lemma ItemWithoutLabelSkipped(xs: seq<ListItem>, item: ListItem, ys: seq<ListItem>)
    requires ItemLabel(item).None?
    ensures FeatureLabels(xs + [item] + ys) == FeatureLabels(xs + ys)
  {
    FeatureLabelsSnoc(xs, item);
    FeatureLabelsAppend(xs + [item], ys);
    FeatureLabelsAppend(xs, ys);
  }

  /** For instance, the labels `Typing`, `Excel`, a blank one and an item
      without a span give the two features `Typing` and `Excel`. */
  lemma BlankItemsSkipped(a: string, b: string, blank: string)
    requires a != "" && IsTrimmed(a) && b != "" && IsTrimmed(b)
    requires AllSpace(blank)
    ensures FeatureLabels([ListItem(Some(a)), ListItem(Some(b)), ListItem(Some(blank)), ListItem(None)]) == [a, b]
  {
    var i0, i1, i2, i3 := ListItem(Some(a)), ListItem(Some(b)), ListItem(Some(blank)), ListItem(None);
    TrimTrimmed(a);
    TrimTrimmed(b);
    LabelListOfText(i0, a);
    LabelListOfText(i1, b);
    LabelListOfText(i2, blank);
    assert FeatureLabels([i0]) == [a] by {
      assert [] + [i0] == [i0];
      FeatureLabelsSnoc([], i0);
    }
    assert FeatureLabels([i0, i1]) == [a, b] by {
      assert [i0] + [i1] == [i0, i1];
      FeatureLabelsSnoc([i0], i1);
    }
    assert FeatureLabels([i0, i1, i2]) == [a, b] by {
      assert [i0, i1] + [i2] == [i0, i1, i2];
      FeatureLabelsSnoc([i0, i1], i2);
    }
    assert [i0, i1, i2] + [i3] == [i0, i1, i2, i3];
    FeatureLabelsSnoc([i0, i1, i2], i3);
  }

  /** The link a card opens, as the click handler composes it: addressed to
      the cafe and free of `#`, so nothing in a card can add a fragment. */
  function InquiryLink(card: CourseCard): (r: string)
    ensures |r| > 8 + |Email| && r[..8 + |Email|] == "mailto:" + Email + "?"
    ensures '#' !in r
  {
    var course := Interpolate(card.course);
    var body := Body(course, Interpolate(card.price), FeatureLabels(card.items));
    var r := MailtoLink(Email, Subject(course), body);
    EmailFree();
    FragmentFree(r, Email);
    r
  }

  lemma EmailFree()
    ensures '#' !in Email
  {
  }

  /** A link whose address and query are free of `#` is free of `#`. */
  lemma FragmentFree(r: string, email: string)
    requires |r| > 8 + |email| && r[..8 + |email|] == "mailto:" + email + "?"
    requires '#' !in email && '#' !in r[8 + |email|..]
    ensures '#' !in r
  {
    assert r == "mailto:" + email + "?" + r[8 + |email|..];
  }

  /** The click handler from reading the card's attributes to the finished
      `mailto:` link. */
  method ComposeInquiry(card: CourseCard) returns (link: string)
    ensures link == InquiryLink(card)
  {
    var course := Interpolate(card.course);
    var price := Interpolate(card.price);
    var features := CollectFeatures(card.items);
    var subject := Subject(course);
    var body := Body(course, price, features);
    link := "mailto:" + Email + "?" + HeaderFields(Encode(subject), CrlfEscapes(Encode(body)));
  }

  /** A mail client reading the link finds the fixed address, the subject
      `Inquiry about <course> Course - E-Tech Cyber Cafe` unchanged and the
      body with CR LF line breaks. */
  lemma InquiryLinkMessage(card: CourseCard)
    ensures var course := Interpolate(card.course);
            ParseMailto(InquiryLink(card)) ==
            Some(Message(Email, "Inquiry about " + course + " Course - E-Tech Cyber Cafe",
                         ToCrlf(Body(course, Interpolate(card.price), FeatureLabels(card.items)))))
  {
    var course := Interpolate(card.course);
    assert '?' !in Email;
    ParseMailtoLink(Email, Subject(course), Body(course, Interpolate(card.price), FeatureLabels(card.items)));
  }

  /** The card's `keydown` listener: Enter and Space suppress the key's
      default action and open the same link a click opens; every other key
      is left to the browser and opens nothing. */
  method OnCardKeyDown(card: CourseCard, key: string) returns (defaultPrevented: bool, link: Option<string>)
    ensures defaultPrevented <==> key == "Enter" || key == " "
    ensures link.Some? <==> defaultPrevented
    ensures link.Some? ==> link.value == InquiryLink(card)
  {
    if IsActivationKey(key) {
      defaultPrevented := true;
      var composed := ComposeInquiry(card);
      link := Some(composed);
    } else {
      defaultPrevented, link := false, None;
    }
  }
}
