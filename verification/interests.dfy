/** The two ways the trip planner normalises the comma-separated interests
    field. Both split on `,` and strip every piece; the create path
    (`generate_trip`) joins the pieces back with `", "`, the edit path
    (`edit_trip`) keeps the list of pieces. */
module Interests {
  import opened Text

  function StripEach(pieces: seq<string>): (r: seq<string>)
    ensures |r| == |pieces|
  {
    if |pieces| == 0 then [] else [Strip(pieces[0])] + StripEach(pieces[1..])
  }

  /** Entry `k` of `StripEach(pieces)` is `pieces[k]` stripped. */
  lemma {:induction false} StripEachAt(pieces: seq<string>)
    ensures forall k :: 0 <= k < |pieces| ==> StripEach(pieces)[k] == Strip(pieces[k])
  {
    if |pieces| > 0 {
      StripEachAt(pieces[1..]);
    }
  }

  /** Edit path: `[x.strip() for x in raw.split(',')]`. One entry per
      comma-separated piece of the form text (the number of commas plus one),
      each the piece stripped, so with no whitespace at either end and no
      comma. */
  function InterestList(raw: string): (r: seq<string>)
    ensures |r| == |Split(raw, ',')| == Count(raw, ',') + 1
    ensures forall k :: 0 <= k < |r| ==>
      && r[k] == Strip(Split(raw, ',')[k])
      && Stripped(r[k])
      && ',' !in r[k]
  {
    var pieces := Split(raw, ',');
    SplitCount(raw, ',');
    StripEachAt(pieces);
    StripEachKeepsOut(pieces, ',');
    StripEach(pieces)
  }

  /** Create path: `", ".join([x.strip() for x in raw.split(',')])`. The
      stored text reads back, the way the edit path reads it, as the same
      list of interests the form text gives. */
  function NormalizeInterests(raw: string): (r: string)
    ensures Split(r, ',') == AfterFirst(InterestList(raw))
    ensures InterestList(r) == InterestList(raw)
  {
    var ps := InterestList(raw);
    SplitJoinComma(ps);
    SplitJoinedInterests(ps);
    StripEachFixed(ps);
    Join(ps, ", ")
  }

  /** The comma-separated parts of a `", "`-join: the first piece as it is,
      every later piece behind the space of its separator. */
  function AfterFirst(ps: seq<string>): seq<string> {
    seq(|ps|, k requires 0 <= k < |ps| => if k == 0 then ps[0] else " " + ps[k])
  }

  /** Splitting a `", "`-join of comma-free pieces on commas gives each piece
      back, the later ones with the space of the separator in front. */
  lemma {:induction false} SplitJoinComma(ps: seq<string>)
    requires |ps| >= 1
    requires forall k :: 0 <= k < |ps| ==> ',' !in ps[k]
    ensures Split(Join(ps, ", "), ',') == AfterFirst(ps)
  {
    if |ps| == 1 {
      SplitPrefix(ps[0], [], ',');
      assert ps[0] + [] == ps[0];
    } else {
      var sz := Split(Join(ps[1..], ", "), ',');
      SplitJoinComma(ps[1..]);
      SplitJoinStep(ps);
      var r := [ps[0]] + ([" " + sz[0]] + sz[1..]);
      forall k | 0 <= k < |ps| ensures r[k] == AfterFirst(ps)[k] {
        if k >= 2 {
          assert r[k] == sz[k - 1];
        }
      }
    }
  }

  /** The create-path text is the only text whose comma-separated parts are
      the stripped pieces, the later ones behind one space: it is exactly
      `", ".join` of the stripped pieces. */
  lemma NormalizeDetermined(raw: string, t: string)
    requires Split(t, ',') == AfterFirst(InterestList(raw))
    ensures t == NormalizeInterests(raw)
  {
    JoinSplit(t, ',');
    JoinSplit(NormalizeInterests(raw), ',');
  }

  /** A separator that does not occur in a string does not occur in its
      stripped form. */
  lemma StripKeepsOut(s: string, c: char)
    requires c !in s
    ensures c !in Strip(s)
  {
  }

  lemma StripEachKeepsOut(pieces: seq<string>, c: char)
    requires forall k :: 0 <= k < |pieces| ==> c !in pieces[k]
    ensures forall k :: 0 <= k < |pieces| ==> c !in Strip(pieces[k])
  {
    forall k | 0 <= k < |pieces| ensures c !in Strip(pieces[k]) {
      StripKeepsOut(pieces[k], c);
    }
  }

  /** One space in front of a string changes nothing once it is stripped. */
  lemma StripDropSpace(q: string)
    ensures Strip(" " + q) == Strip(q)
  {
    assert (" " + q)[0] == ' ';
    assert (" " + q)[1..] == q;
    assert LeadingSpaces(" " + q) == 1 + LeadingSpaces(q);
    assert (" " + q)[1 + LeadingSpaces(q)..] == q[LeadingSpaces(q)..];
  }

  /** The comma after a comma-free first piece ends that piece; the space
      after it is glued to the next one. */
  lemma SplitCommaSpace(x: string, z: string)
    requires ',' !in x
    ensures Split(x + ", " + z, ',') == [x] + ([" " + Split(z, ',')[0]] + Split(z, ',')[1..])
  {
    var w := " " + z;
    assert x + ", " + z == x + ([','] + w);
    SplitPrefix(x, [','] + w, ',');
    assert ([','] + w)[1..] == w;
    assert Split([','] + w, ',') == [[]] + Split(w, ',');
    assert x + [] == x;
    SplitPrefix(" ", z, ',');
  }

  lemma StripEachCons(a: string, rest: seq<string>)
    ensures StripEach([a] + rest) == [Strip(a)] + StripEach(rest)
  {
    assert ([a] + rest)[1..] == rest;
  }

  lemma StripEachDropSpace(a: string, rest: seq<string>)
    ensures StripEach([" " + a] + rest) == StripEach([a] + rest)
  {
    StripDropSpace(a);
  }

  lemma SplitJoinStep(ps: seq<string>)
    requires |ps| >= 2 && ',' !in ps[0]
    ensures Split(Join(ps, ", "), ',') ==
      [ps[0]] + ([" " + Split(Join(ps[1..], ", "), ',')[0]] + Split(Join(ps[1..], ", "), ',')[1..])
  {
    var z := Join(ps[1..], ", ");
    assert Join(ps, ", ") == ps[0] + ", " + z;
    SplitCommaSpace(ps[0], z);
  }

  /** Splitting `Join(ps, ", ")` on commas and stripping the pieces recovers
      the stripped `ps`, provided no piece holds a comma. */
  lemma {:induction false} SplitJoinedInterests(ps: seq<string>)
    requires |ps| >= 1
    requires forall k :: 0 <= k < |ps| ==> ',' !in ps[k]
    ensures StripEach(Split(Join(ps, ", "), ',')) == StripEach(ps)
  {
    if |ps| == 1 {
      SplitPrefix(ps[0], [], ',');
      assert ps[0] + [] == ps[0];
    } else {
      var sz := Split(Join(ps[1..], ", "), ',');
      SplitJoinedInterests(ps[1..]);
      SplitJoinStep(ps);
      StripEachCons(ps[0], [" " + sz[0]] + sz[1..]);
      StripEachDropSpace(sz[0], sz[1..]);
      assert [sz[0]] + sz[1..] == sz;
      StripEachCons(ps[0], ps[1..]);
      assert [ps[0]] + ps[1..] == ps;
    }
  }

  /** Strings with no whitespace at their ends are left alone by strip. */
  lemma {:induction false} StripEachFixed(ps: seq<string>)
    requires forall k :: 0 <= k < |ps| ==> Stripped(ps[k])
    ensures StripEach(ps) == ps
  {
    if |ps| > 0 {
      StripEachFixed(ps[1..]);
      StripFixed(ps[0]);
      assert ps == [ps[0]] + ps[1..];
    }
  }

  /** Normalising already normalised interests changes nothing. */
  lemma NormalizeIdempotent(raw: string)
    ensures NormalizeInterests(NormalizeInterests(raw)) == NormalizeInterests(raw)
  {
  }
}
