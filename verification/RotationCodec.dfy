/**
 * How a view is written into, and read back from, a stored view record.
 *
 * `set_data` stores the rotation quaternion as the text `"w x y z"`; `convert_data`
 * splits that text on single spaces, parses each piece as a number and builds the
 * quaternion again. Number printing and parsing are not modelled: they are the
 * parameters `show` and `parse`, and the round trip holds for every pair that
 * prints without spaces and parses back exactly (`Printable`).
 */
module RotationCodec {
  import opened Wrappers

  datatype Quaternion<C> = Quaternion(w: C, x: C, y: C, z: C)

  /** A view as read from the viewport: rotation, location and distance. */
  datatype ViewData<C, L, D> = ViewData(rotation: Quaternion<C>, location: L, distance: D)

  /** A view as held in a stored view record: the rotation is text. */
  datatype StoredData<L, D> = StoredData(rotation: string, location: L, distance: D)

  datatype DecodeError = NotANumber(token: string) | WrongComponentCount(count: nat)

  /** `show` prints a component without spaces and `parse` reads that text back exactly. */
  ghost predicate Printable<C(!new)>(show: C -> string, parse: string -> Option<C>)
  {
    forall c :: ' ' !in show(c) && parse(show(c)) == Some(c)
  }

  /** Pieces glued with one space between neighbours (the inverse of `Split`). */
  function JoinWithSpaces(parts: seq<string>): string
  {
    if |parts| == 0 then ""
    else if |parts| == 1 then parts[0]
    else parts[0] + " " + JoinWithSpaces(parts[1..])
  }

  /**
   * Splitting on every single space, keeping empty pieces: there is always at
   * least one piece, no piece holds a space, and gluing the pieces back gives `s`.
   */
  function Split(s: string): (parts: seq<string>)
    ensures |parts| >= 1
    ensures forall i :: 0 <= i < |parts| ==> ' ' !in parts[i]
    ensures JoinWithSpaces(parts) == s
  {
    if |s| == 0 then [""]
    else
      var rest := Split(s[1..]);
      if s[0] == ' ' then
        assert s == " " + s[1..];
        [""] + rest
      else
        var parts := [[s[0]] + rest[0]] + rest[1..];
        assert parts[1..] == rest[1..];
        if |rest| == 1 then
          assert s == [s[0]] + s[1..];
          parts
        else
          assert JoinWithSpaces(rest) == rest[0] + " " + JoinWithSpaces(rest[1..]);
          assert s == [s[0]] + s[1..];
          assert JoinWithSpaces(parts) == ([s[0]] + rest[0]) + " " + JoinWithSpaces(rest[1..]);
          parts
  }

  /** A piece without spaces splits into itself alone. */
  lemma {:induction false} SplitSpaceFree(a: string)
    requires ' ' !in a
    ensures Split(a) == [a]
  {
    if |a| > 0 {
      SplitSpaceFree(a[1..]);
      assert [a[0]] + a[1..] == a;
    }
  }

  /** Splitting `a + " " + b` yields `a` first when `a` holds no space. */
  lemma {:induction false} SplitAfterPiece(a: string, b: string)
    requires ' ' !in a
    ensures Split(a + " " + b) == [a] + Split(b)
  {
    var s := a + " " + b;
    if |a| == 0 {
      assert s[0] == ' ' && s[1..] == b;
    } else {
      assert s[1..] == a[1..] + " " + b;
      SplitAfterPiece(a[1..], b);
      assert [a[0]] + a[1..] == a;
    }
  }

  /** `set_data`'s rotation text: the components in the order w, x, y, z, one space apart. */
  function Encode<C>(q: Quaternion<C>, show: C -> string): (r: string)
    ensures r == JoinWithSpaces([show(q.w), show(q.x), show(q.y), show(q.z)])
  {
    var pieces := [show(q.w), show(q.x), show(q.y), show(q.z)];
    assert JoinWithSpaces(pieces[3..]) == show(q.z);
    assert JoinWithSpaces(pieces[2..]) == show(q.y) + " " + show(q.z);
    assert JoinWithSpaces(pieces[1..]) == show(q.x) + " " + show(q.y) + " " + show(q.z);
    show(q.w) + " " + show(q.x) + " " + show(q.y) + " " + show(q.z)
  }

  /**
   * Parses every piece in order; the first piece that is not a number is the error.
   * On success there is one number per piece, each the parse of its piece.
   */
  function ParseAll<C>(pieces: seq<string>, parse: string -> Option<C>): (r: Result<seq<C>, DecodeError>)
    ensures r.Success? ==> |r.value| == |pieces|
    ensures r.Success? ==> forall i :: 0 <= i < |pieces| ==> parse(pieces[i]) == Some(r.value[i])
    ensures r.Failure? ==> exists i ::
      && 0 <= i < |pieces|
      && parse(pieces[i]).None?
      && r.error == NotANumber(pieces[i])
      && forall j :: 0 <= j < i ==> parse(pieces[j]).Some?
  {
    if |pieces| == 0 then Success([])
    else
      match parse(pieces[0])
      case None => Failure(NotANumber(pieces[0]))
      case Some(c) =>
        match ParseAll(pieces[1..], parse)
        case Failure(e) => Failure(e)
        case Success(cs) => Success([c] + cs)
  }

  /** `convert_data`'s rotation step: split on spaces, parse, and require four components. */
  function Decode<C>(text: string, parse: string -> Option<C>): (r: Result<Quaternion<C>, DecodeError>)
    ensures r.Success? ==> |Split(text)| == 4
    ensures r.Success? ==> var pieces := Split(text);
      && parse(pieces[0]) == Some(r.value.w) && parse(pieces[1]) == Some(r.value.x)
      && parse(pieces[2]) == Some(r.value.y) && parse(pieces[3]) == Some(r.value.z)
    ensures r.Success? <==> |Split(text)| == 4 && forall i :: 0 <= i < 4 ==> parse(Split(text)[i]).Some?
    ensures r.Failure? && r.error.NotANumber? ==> var pieces := Split(text); exists i ::
      && 0 <= i < |pieces|
      && parse(pieces[i]).None?
      && r.error == NotANumber(pieces[i])
      && forall j :: 0 <= j < i ==> parse(pieces[j]).Some?
    ensures r.Failure? && !r.error.NotANumber? ==>
      && r.error == WrongComponentCount(|Split(text)|)
      && forall i :: 0 <= i < |Split(text)| ==> parse(Split(text)[i]).Some?
  {
    match ParseAll(Split(text), parse)
    case Failure(e) => Failure(e)
    case Success(cs) =>
      if |cs| != 4 then Failure(WrongComponentCount(|cs|))
      else Success(Quaternion(cs[0], cs[1], cs[2], cs[3]))
  }

  /** `set_data`: the fields a stored view record receives. */
  function SetData<C, L, D>(v: ViewData<C, L, D>, show: C -> string): (r: StoredData<L, D>)
    ensures r.rotation == JoinWithSpaces([show(v.rotation.w), show(v.rotation.x), show(v.rotation.y), show(v.rotation.z)])
    ensures r.location == v.location && r.distance == v.distance
  {
    StoredData(Encode(v.rotation, show), v.location, v.distance)
  }

  /** `convert_data`: the rotation text back to a quaternion; location and distance pass through. */
  function ConvertData<C, L, D>(d: StoredData<L, D>, parse: string -> Option<C>): (r: Result<ViewData<C, L, D>, DecodeError>)
    ensures r.Success? <==> Decode(d.rotation, parse).Success?
    ensures r.Success? ==> r.value.rotation == Decode(d.rotation, parse).value
    ensures r.Success? ==> r.value.location == d.location && r.value.distance == d.distance
    ensures r.Failure? ==> r.error == Decode(d.rotation, parse).error
  {
    match Decode(d.rotation, parse)
    case Failure(e) => Failure(e)
    case Success(q) => Success(ViewData(q, d.location, d.distance))
  }

  /** The encoded rotation splits into the four printed components. */
  lemma SplitEncode<C(!new)>(q: Quaternion<C>, show: C -> string, parse: string -> Option<C>)
    requires Printable(show, parse)
    ensures Split(Encode(q, show)) == [show(q.w), show(q.x), show(q.y), show(q.z)]
  {
    var w, x, y, z := show(q.w), show(q.x), show(q.y), show(q.z);
    assert ' ' !in w && ' ' !in x && ' ' !in y && ' ' !in z;
    assert Encode(q, show) == w + " " + (x + " " + (y + " " + z));
    SplitSpaceFree(z);
    SplitAfterPiece(y, z);
    SplitAfterPiece(x, y + " " + z);
    SplitAfterPiece(w, x + " " + (y + " " + z));
  }

  /** Decoding the encoded rotation gives back the four components in the same order. */
  lemma DecodeEncode<C(!new)>(q: Quaternion<C>, show: C -> string, parse: string -> Option<C>)
    requires Printable(show, parse)
    ensures Decode(Encode(q, show), parse) == Success(q)
  {
    SplitEncode(q, show, parse);
    var pieces := [show(q.w), show(q.x), show(q.y), show(q.z)];
    assert parse(pieces[0]) == Some(q.w) && parse(pieces[1]) == Some(q.x);
    assert parse(pieces[2]) == Some(q.y) && parse(pieces[3]) == Some(q.z);
    var r := ParseAll(pieces, parse);
    assert r.Success?;
    assert r.value == [q.w, q.x, q.y, q.z];
  }

  /** A view written by `set_data` and read by `convert_data` is the view itself. */
  lemma RoundTrip<C(!new), L, D>(v: ViewData<C, L, D>, show: C -> string, parse: string -> Option<C>)
    requires Printable(show, parse)
    ensures ConvertData(SetData(v, show), parse) == Success(v)
  {
    DecodeEncode(v.rotation, show, parse);
  }

  /**
   * Two views are stored alike only if they are equal, so matching history records
   * by their stored form decides the same as comparing the views themselves.
   */
  lemma SetDataInjective<C(!new), L, D>(v1: ViewData<C, L, D>, v2: ViewData<C, L, D>, show: C -> string, parse: string -> Option<C>)
    requires Printable(show, parse)
    ensures SetData(v1, show) == SetData(v2, show) <==> v1 == v2
  {
    RoundTrip(v1, show, parse);
    RoundTrip(v2, show, parse);
  }
}
