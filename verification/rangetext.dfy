/**
 The text the two Copy buttons put on the clipboard, `"h,s,v"`, and a reader
 for it that recovers the three numbers (the text is meant to be pasted as
 the arguments of `cv2.inRange`).
 */
module RangeText {
  import opened Base
  import opened PyText
  import opened Threshold

  /** `'{},{},{}'.format(h, s, v)` with each field already printed. */
  function Join3(h: string, s: string, v: string): string {
    h + "," + s + "," + v
  }

  /** The clipboard text for a bound: decimal fields, no padding. */
  function FormatRange(t: Triple): string {
    Join3(Str(t.h), Str(t.s), Str(t.v))
  }

  /** Python's `s.split(',')`. */
  function Split(s: string): (parts: seq<string>)
    ensures |parts| > 0
  {
    if |s| == 0 then [""]
    else
      var rest := Split(s[1..]);
      if s[0] == ',' then [""] + rest else [[s[0]] + rest[0]] + rest[1..]
  }

  /** Reads `"h,s,v"` back into a bound; `None` unless there are exactly three
      comma-separated integers. */
  function ParseRange(s: string): Option<Triple> {
    var parts := Split(s);
    if |parts| != 3 then None
    else match (ParseInt(parts[0]), ParseInt(parts[1]), ParseInt(parts[2]))
      case (Some(h), Some(sat), Some(v)) => Some(Triple(h, sat, v))
      case _ => None
  }

  lemma StrHasNoComma(n: int)
    ensures ',' !in Str(n)
  {
  }

  lemma {:induction false} SplitNoComma(a: string)
    requires ',' !in a
    ensures Split(a) == [a]
  {
    if |a| > 0 {
      SplitNoComma(a[1..]);
      assert [a[0]] + a[1..] == a;
    }
  }

  lemma {:induction false} SplitFirstField(a: string, t: string)
    requires ',' !in a
    ensures Split(a + "," + t) == [a] + Split(t)
  {
    var s := a + "," + t;
    if |a| == 0 {
      assert s[0] == ',' && s[1..] == t;
    } else {
      assert s[1..] == a[1..] + "," + t;
      SplitFirstField(a[1..], t);
      assert [a[0]] + a[1..] == a;
    }
  }

  lemma SplitJoin3(h: string, s: string, v: string)
    requires ',' !in h && ',' !in s && ',' !in v
    ensures Split(Join3(h, s, v)) == [h, s, v]
  {
    assert Join3(h, s, v) == h + "," + (s + "," + v);
    SplitFirstField(h, s + "," + v);
    SplitFirstField(s, v);
    SplitNoComma(v);
  }

  /** The copied text reads back as the bound it was made from. */
  lemma ParseFormat(t: Triple)
    ensures ParseRange(FormatRange(t)) == Some(t)
  {
    StrHasNoComma(t.h);
    StrHasNoComma(t.s);
    StrHasNoComma(t.v);
    SplitJoin3(Str(t.h), Str(t.s), Str(t.v));
    ParseStr(t.h);
    ParseStr(t.s);
    ParseStr(t.v);
  }
}
