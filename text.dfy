/**
  Comma-separated text fields, as used by the outbound command packet of
  both controller variants: joining formatted numbers with ',' and the
  receiver-side split that recovers them.
 */
module Text {

  const Separator: char := ','
  const Terminator: char := ';'

  /** A field that can be placed in a packet without breaking its framing. */
  predicate PlainField(f: string) {
    Separator !in f && Terminator !in f
  }

  /** A number formatter whose output never contains ',' or ';'. */
  ghost predicate Clean(fmt: real -> string) {
    forall x: real :: PlainField(fmt(x))
  }

  /** The fields written one after another with a ',' between neighbours. */
  function Join(fields: seq<string>): (r: string)
    ensures |fields| == 0 ==> r == ""
    ensures |fields| >= 1 ==> fields[0] <= r
    ensures |fields| >= 1 ==>
      var last := fields[|fields| - 1];
      |last| <= |r| && r[|r| - |last|..] == last
    decreases |fields|
  {
    if |fields| == 0 then ""
    else if |fields| == 1 then fields[0]
    else fields[0] + [Separator] + Join(fields[1..])
  }

  /** Cuts a string at every ','; the receiver's view of a packet. */
  function Split(s: string): (parts: seq<string>)
    ensures |parts| >= 1
    ensures Separator !in s ==> parts == [s]
    decreases |s|
  {
    if |s| == 0 then [""]
    else
      var tail := Split(s[1..]);
      if s[0] == Separator then [""] + tail
      else
        assert [s[0]] + s[1..] == s;
        [[s[0]] + tail[0]] + tail[1..]
  }

  /** Splitting a field followed by ',' yields that field first. */
  lemma {:induction false} SplitAfterField(a: string, b: string)
    requires Separator !in a
    ensures Split(a + [Separator] + b) == [a] + Split(b)
    decreases |a|
  {
    if |a| == 0 {
      assert a + [Separator] + b == [Separator] + b;
      assert ([Separator] + b)[1..] == b;
    } else {
      var s := a + [Separator] + b;
      assert s[0] == a[0];
      assert s[1..] == a[1..] + [Separator] + b;
      SplitAfterField(a[1..], b);
      assert [a[0]] + a[1..] == a;
    }
  }

  /** Splitting undoes joining when no field contains ','. */
  lemma {:induction false} SplitJoin(fields: seq<string>)
    requires |fields| >= 1
    requires forall i :: 0 <= i < |fields| ==> Separator !in fields[i]
    ensures Split(Join(fields)) == fields
    decreases |fields|
  {
    if |fields| > 1 {
      SplitAfterField(fields[0], Join(fields[1..]));
      SplitJoin(fields[1..]);
      assert [fields[0]] + fields[1..] == fields;
    }
  }

  /** Joining fields free of ';' gives a string free of ';'. */
  lemma {:induction false} JoinHasNoTerminator(fields: seq<string>)
    requires forall i :: 0 <= i < |fields| ==> Terminator !in fields[i]
    ensures Terminator !in Join(fields)
    decreases |fields|
  {
    if |fields| > 1 {
      JoinHasNoTerminator(fields[1..]);
    }
  }
}
