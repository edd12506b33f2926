/**
 * WriteIcalBuf: the VCALENDAR document around the events of all courses.
 * The writer is modelled as the text written so far.
 */
module Calendar {
  import opened Results
  import opened Schedule
  import opened Ical
  import opened GoStrings

  const Header := "BEGIN:VCALENDAR\nVERSION:2.0\nCALSCALE:GREGORIAN\n"
  const Footer := "END:VCALENDAR\n"

  /** The texts in order, or the first error among them. */
  function Collect(texts: seq<Result<string, IcalError>>): Result<string, IcalError>
    decreases |texts|
  {
    if texts == [] then Ok("")
    else
      var n := |texts| - 1;
      match Collect(texts[..n])
      case Err(e) => Err(e)
      case Ok(before) =>
        match texts[n]
        case Err(e) => Err(e)
        case Ok(text) => Ok(before + text)
  }

  /** GetIcal's result for each course; `stamps[i]` is the DTSTAMP of `courses[i]`. */
  function Texts(courses: seq<Course>, stamps: seq<string>): seq<Result<string, IcalError>>
    requires |stamps| == |courses|
  {
    seq(|courses|, i requires 0 <= i < |courses| => IcalText(courses[i], stamps[i]))
  }

  /** The events of the courses, in course order, or the error of the first course that fails. */
  function Events(courses: seq<Course>, stamps: seq<string>): Result<string, IcalError>
    requires |stamps| == |courses|
  {
    Collect(Texts(courses, stamps))
  }

  /** The whole document, when every course yields its event. */
  function Document(courses: seq<Course>, stamps: seq<string>): (r: Result<string, IcalError>)
    requires |stamps| == |courses|
    ensures r.Ok? <==> Events(courses, stamps).Ok?
    ensures r.Ok? ==> r.value == Header + Events(courses, stamps).value + Footer
    ensures r.Err? ==> r.error == Events(courses, stamps).error
    ensures r.Ok? ==> |r.value| >= |Header| + |Footer|
                      && r.value[..|Header|] == Header
                      && r.value[|r.value| - |Footer|..] == Footer
  {
    match Events(courses, stamps)
    case Err(e) => Err(e)
    case Ok(body) =>
      var text := Header + body + Footer;
      assert text[..|Header|] == Header;
      assert text[|text| - |Footer|..] == Footer;
      Ok(text)
  }

  /** Once some prefix of the texts fails, every longer prefix fails with the same error. */
  lemma {:induction false} FailureSticks(texts: seq<Result<string, IcalError>>, i: nat, m: nat)
    requires i <= m <= |texts|
    requires Collect(texts[..i]).Err?
    ensures Collect(texts[..m]) == Collect(texts[..i])
    decreases m - i
  {
    if i < m {
      FailureSticks(texts, i, m - 1);
      assert texts[..m][..m - 1] == texts[..m - 1];
    }
  }

  /** One more text: it is appended, or its error ends the body. */
  lemma CollectStep(texts: seq<Result<string, IcalError>>, i: nat)
    requires i < |texts| && Collect(texts[..i]).Ok?
    ensures Collect(texts[..i + 1]) ==
            match texts[i]
            case Err(e) => Err(e)
            case Ok(text) => Ok(Collect(texts[..i]).value + text)
  {
    assert texts[..i + 1][..i] == texts[..i];
  }

  /** The texts of a prefix of the courses are a prefix of the texts. */
  lemma TextsPrefix(courses: seq<Course>, stamps: seq<string>, i: nat)
    requires |stamps| == |courses| && i <= |courses|
    ensures Texts(courses[..i], stamps[..i]) == Texts(courses, stamps)[..i]
  {
  }

  /**
   * WriteIcalBuf: writes the header, then each course's event text in
   * order, then the footer. On the first error it stops, leaving the header
   * and the events before the failing course written.
   */
  method WriteIcalBuf(courses: seq<Course>, stamps: seq<string>) returns (out: string, err: Option<IcalError>)
    requires |stamps| == |courses|
    ensures err.None? <==> Document(courses, stamps).Ok?
    ensures err.None? ==> out == Document(courses, stamps).value
    ensures err.Some? ==> err.value == Document(courses, stamps).error
    ensures err.Some? ==> exists i | 0 <= i < |courses| ::
                            && Events(courses[..i], stamps[..i]).Ok?
                            && IcalText(courses[i], stamps[i]).Err?
                            && err.value == IcalText(courses[i], stamps[i]).error
                            && out == Header + Events(courses[..i], stamps[..i]).value
  {
    ghost var texts := Texts(courses, stamps);
    out := Header;
    var i := 0;
    while i < |courses|
      invariant 0 <= i <= |courses|
      invariant Collect(texts[..i]).Ok?
      invariant out == Header + Collect(texts[..i]).value
    {
      var e := GetIcal(courses[i], stamps[i]);
      CollectStep(texts, i);
      if e.Err? {
        FailureSticks(texts, i + 1, |texts|);
        assert texts[..|texts|] == texts;
        TextsPrefix(courses, stamps, i);
        return out, Some(e.error);
      }
      ghost var body := Collect(texts[..i]).value;
      AppendAssoc(Header, body, e.value);
      out := out + e.value;
      i := i + 1;
    }
    assert texts[..i] == texts;
    out := out + Footer;
    err := None;
  }

  /** The events of a single course are its own event text, or its error. */
  lemma EventsSingle(c: Course, stamp: string)
    ensures Events([c], [stamp]) == IcalText(c, stamp)
  {
    var texts := Texts([c], [stamp]);
    assert texts == [IcalText(c, stamp)];
    assert texts[..0] == [] && Collect(texts[..0]) == Ok("");
    assert texts[0] == IcalText(c, stamp);
    match IcalText(c, stamp)
    case Err(_) =>
    case Ok(text) => assert "" + text == text;
  }

  /** The texts fail together exactly when one of them fails. */
  lemma {:induction false} CollectFailsIff(texts: seq<Result<string, IcalError>>)
    ensures Collect(texts).Err? <==> exists i | 0 <= i < |texts| :: texts[i].Err?
    decreases |texts|
  {
    if texts != [] {
      var n := |texts| - 1;
      var front := texts[..n];
      CollectFailsIff(front);
      if exists i | 0 <= i < n :: front[i].Err? {
        var i :| 0 <= i < n && front[i].Err?;
        assert texts[i].Err?;
      }
      if exists i | 0 <= i < |texts| :: texts[i].Err? {
        var i :| 0 <= i < |texts| && texts[i].Err?;
        if i < n {
          assert front[i].Err?;
        }
      }
    }
  }

  /** The document fails exactly when some course fails. */
  lemma DocumentFailsIff(courses: seq<Course>, stamps: seq<string>)
    requires |stamps| == |courses|
    ensures Document(courses, stamps).Err? <==>
            exists i | 0 <= i < |courses| :: IcalText(courses[i], stamps[i]).Err?
  {
    var texts := Texts(courses, stamps);
    assert |texts| == |courses|;
    assert forall i | 0 <= i < |courses| :: texts[i] == IcalText(courses[i], stamps[i]);
    CollectFailsIff(texts);
    if exists i | 0 <= i < |texts| :: texts[i].Err? {
      var i :| 0 <= i < |texts| && texts[i].Err?;
      assert IcalText(courses[i], stamps[i]).Err?;
    }
  }

  /** Collecting two runs of texts gives the two bodies one after the other. */
  lemma {:induction false} CollectConcat(a: seq<Result<string, IcalError>>, b: seq<Result<string, IcalError>>)
    requires Collect(a).Ok? && Collect(b).Ok?
    ensures Collect(a + b) == Ok(Collect(a).value + Collect(b).value)
    decreases |b|
  {
    if b == [] {
      assert a + b == a;
      assert Collect(a).value + "" == Collect(a).value;
    } else {
      var n := |b| - 1;
      assert Collect(b[..n]).Ok?;
      CollectConcat(a, b[..n]);
      assert (a + b)[..|a| + n] == a + b[..n];
      assert (a + b)[|a| + n] == b[n];
      var text := b[n].value;
      assert Collect(b).value == Collect(b[..n]).value + text;
      AppendAssoc(Collect(a).value, Collect(b[..n]).value, text);
    }
  }

  /** The body of a document of two runs of courses is the two bodies one after the other. */
  lemma EventsConcat(a: seq<Course>, sa: seq<string>, b: seq<Course>, sb: seq<string>)
    requires |sa| == |a| && |sb| == |b|
    requires Events(a, sa).Ok? && Events(b, sb).Ok?
    ensures Events(a + b, sa + sb) == Ok(Events(a, sa).value + Events(b, sb).value)
  {
    var ta, tb, t := Texts(a, sa), Texts(b, sb), Texts(a + b, sa + sb);
    forall i | 0 <= i < |t|
      ensures t[i] == (ta + tb)[i]
    {
      if i < |a| {
        assert (a + b)[i] == a[i] && (sa + sb)[i] == sa[i];
      } else {
        assert (a + b)[i] == b[i - |a|] && (sa + sb)[i] == sb[i - |a|];
      }
    }
    assert t == ta + tb;
    CollectConcat(Texts(a, sa), Texts(b, sb));
  }

  /** A course with an empty meeting pattern adds nothing to the document. */
  lemma EmptyPatternAddsNothing(courses: seq<Course>, stamps: seq<string>, c: Course, stamp: string)
    requires |stamps| == |courses| && c.meeting == ""
    ensures Events(courses + [c], stamps + [stamp]) == Events(courses, stamps)
  {
    var texts := Texts(courses + [c], stamps + [stamp]);
    assert texts[..|courses|] == Texts(courses, stamps);
    assert texts[|courses|] == Ok("");
    if Collect(texts[..|courses|]).Ok? {
      assert Collect(texts[..|courses|]).value + "" == Collect(texts[..|courses|]).value;
    }
    assert texts[..|courses| + 1] == texts;
  }
}
