/**
 * The two text operations the persistence format relies on: joining fields
 * with a comma, and Java's `String.split(",")` (limit 0), which splits at
 * every comma and then drops trailing empty strings.
 */
module JavaText {

  /** True when `s` holds no field delimiter. */
  predicate CommaFree(s: string) {
    forall i :: 0 <= i < |s| ==> s[i] != ','
  }

  /**
   * True when `s` holds no line terminator, so that `BufferedReader.readLine`
   * gives it back as one line.
   */
  predicate SingleLine(s: string) {
    forall i :: 0 <= i < |s| ==> s[i] != '\n' && s[i] != '\r'
  }

  /** True when no field of `fields` holds a comma. */
  predicate AllCommaFree(fields: seq<string>) {
    forall i :: 0 <= i < |fields| ==> CommaFree(fields[i])
  }

  /** `f0 + "," + f1 + "," + ... + fn`, the comma-joined form of a record. */
  function Join(fields: seq<string>): string {
    if |fields| == 0 then ""
    else if |fields| == 1 then fields[0]
    else fields[0] + "," + Join(fields[1..])
  }

  /**
   * Every piece between two commas, empty pieces included: the list the
   * Java splitter builds before it trims trailing empty strings. Joining the
   * pieces gives back the text, and no piece holds a comma.
   */
  function Pieces(s: string): (r: seq<string>)
    ensures |r| >= 1
    ensures Join(r) == s
    ensures AllCommaFree(r)
    decreases |s|
  {
    if s == [] then [""]
    else
      var rest := Pieces(s[1..]);
      if s[0] == ',' then [""] + rest
      else [[s[0]] + rest[0]] + rest[1..]
  }

  /** The longest prefix of `ps` whose last element, if any, is not empty. */
  function DropTrailingEmpty(ps: seq<string>): (r: seq<string>)
    ensures |r| <= |ps| && r == ps[..|r|]
    ensures |r| > 0 ==> r[|r| - 1] != ""
    ensures forall i :: |r| <= i < |ps| ==> ps[i] == ""
    decreases |ps|
  {
    if |ps| == 0 then []
    else if ps[|ps| - 1] == "" then DropTrailingEmpty(ps[..|ps| - 1])
    else ps
  }

  /**
   * `s.split(",")` in Java: a text without a comma comes back whole (even the
   * empty text); otherwise the pieces between commas, with trailing empty
   * pieces removed (so `","` splits into no fields at all).
   */
  function Split(s: string): (r: seq<string>)
    ensures AllCommaFree(r)
    ensures CommaFree(s) ==> r == [s]
    ensures !CommaFree(s) ==> r == DropTrailingEmpty(Pieces(s))
  {
    if CommaFree(s) then [s] else DropTrailingEmpty(Pieces(s))
  }

  /** Appending a field adds a comma and the field at the end of the text. */
  lemma {:induction false} JoinAppend(fields: seq<string>, x: string)
    requires |fields| >= 1
    ensures Join(fields + [x]) == Join(fields) + "," + x
    decreases |fields|
  {
    if |fields| == 1 {
      assert (fields + [x])[1..] == [x];
    } else {
      assert (fields + [x])[1..] == fields[1..] + [x];
      JoinAppend(fields[1..], x);
    }
  }

  /** The comma-join of three fields. */
  lemma JoinThree(a: string, b: string, c: string)
    ensures Join([a, b, c]) == a + "," + b + "," + c
  {
    JoinAppend([a], b);
    assert [a] + [b] == [a, b];
    JoinAppend([a, b], c);
    assert [a, b] + [c] == [a, b, c];
  }

  /** The comma-join of six fields. */
  lemma JoinSix(a: string, b: string, c: string, d: string, e: string, f: string)
    ensures Join([a, b, c, d, e, f]) == a + "," + b + "," + c + "," + d + "," + e + "," + f
  {
    JoinThree(a, b, c);
    JoinAppend([a, b, c], d);
    assert [a, b, c] + [d] == [a, b, c, d];
    JoinAppend([a, b, c, d], e);
    assert [a, b, c, d] + [e] == [a, b, c, d, e];
    JoinAppend([a, b, c, d, e], f);
    assert [a, b, c, d, e] + [f] == [a, b, c, d, e, f];
  }

  /** A leading comma-free field is split off as the first piece. */
  lemma {:induction false} PiecesAfterField(a: string, t: string)
    requires CommaFree(a)
    ensures Pieces(a + "," + t) == [a] + Pieces(t)
    decreases |a|
  {
    if a == [] {
      assert a + "," + t == [','] + t;
      assert (a + "," + t)[1..] == t;
    } else {
      assert (a + "," + t)[1..] == a[1..] + "," + t;
      PiecesAfterField(a[1..], t);
      assert [a[0]] + a[1..] == a;
    }
  }

  /** A comma-free text is a single piece. */
  lemma {:induction false} PiecesOfField(a: string)
    requires CommaFree(a)
    ensures Pieces(a) == [a]
    decreases |a|
  {
    if a != [] {
      PiecesOfField(a[1..]);
      assert [a[0]] + a[1..] == a;
    }
  }

  /** Cutting a joined record at its commas gives back its fields. */
  lemma {:induction false} PiecesOfJoin(fields: seq<string>)
    requires |fields| >= 1 && AllCommaFree(fields)
    ensures Pieces(Join(fields)) == fields
    decreases |fields|
  {
    if |fields| == 1 {
      PiecesOfField(fields[0]);
    } else {
      assert CommaFree(fields[0]);
      PiecesAfterField(fields[0], Join(fields[1..]));
      PiecesOfJoin(fields[1..]);
      assert [fields[0]] + fields[1..] == fields;
    }
  }

  /**
   * Splitting a comma-joined record of at least two comma-free fields whose
   * last field is not empty gives back exactly those fields.
   */
  lemma SplitJoin(fields: seq<string>)
    requires |fields| >= 2 && AllCommaFree(fields)
    requires fields[|fields| - 1] != ""
    ensures Split(Join(fields)) == fields
  {
    var s := Join(fields);
    assert s == fields[0] + "," + Join(fields[1..]);
    assert s[|fields[0]|] == ',';
    assert !CommaFree(s);
    PiecesOfJoin(fields);
  }
}
