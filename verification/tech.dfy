/** The backend's parsing of the comma-separated `techStr` field, on create
    and on update, and its round trip with the text the admin form shows. */
module Tech {
  import opened JsValues
  import opened Seqs
  import opened JsStrings
  import opened Reconcile

  predicate CleanTechEntry(t: string)
  {
    IsTrimmed(t) && ',' !in t
  }

  /** Create's tech list: the comma-separated pieces, trimmed, empty ones dropped;
      none when `techStr` is falsy. */
  function ParseTechCreate(techStr: Option<string>): (r: seq<string>)
    ensures forall t :: t in r ==> t != "" && CleanTechEntry(t)
    ensures Truthy(techStr) ==> r == NonEmpty(UpdatedTech(techStr, []))
    ensures !Truthy(techStr) ==> r == []
  {
    if Truthy(techStr) then
      SplitPiecesLackSeparator(techStr.value, ',');
      TrimAllClean(Split(techStr.value, ','));
      NonEmpty(TrimAll(Split(techStr.value, ',')))
    else []
  }

  /** Update's tech list: when `techStr` is truthy, its comma-separated pieces,
      trimmed, with empty pieces kept; otherwise the current list. */
  function UpdatedTech(techStr: Option<string>, current: seq<string>): (r: seq<string>)
    ensures Truthy(techStr) ==> forall t :: t in r ==> CleanTechEntry(t)
    ensures Truthy(techStr) ==> |r| == |Split(techStr.value, ',')|
    ensures Truthy(techStr) ==> forall i :: 0 <= i < |r| ==> r[i] == Trim(Split(techStr.value, ',')[i])
    ensures !Truthy(techStr) ==> r == current
  {
    if Truthy(techStr) then
      SplitPiecesLackSeparator(techStr.value, ',');
      TrimAllClean(Split(techStr.value, ','));
      TrimAllPointwise(Split(techStr.value, ','));
      TrimAll(Split(techStr.value, ','))
    else current
  }

  /** Trimming comma-free pieces leaves them comma-free. */
  lemma {:induction false} TrimAllClean(pieces: seq<string>)
    requires forall i :: 0 <= i < |pieces| ==> ',' !in pieces[i]
    ensures forall t :: t in TrimAll(pieces) ==> CleanTechEntry(t)
  {
    if |pieces| > 0 {
      TrimAllClean(pieces[1..]);
      TrimIsTrimmed(pieces[0]);
      if ',' in Trim(pieces[0]) {
        TrimKeepsCharacters(pieces[0], ',');
      }
    }
  }

  /** Create is update's list with the empty entries dropped; so a text with
      an empty piece between two commas, `a,,b`, leaves an empty entry in the
      list on update and none on create. */
  lemma UpdateKeepsEmptyTech(a: string, b: string, current: seq<string>)
    ensures var s := Some(a + ",," + b);
            ParseTechCreate(s) == NonEmpty(UpdatedTech(s, current))
            && "" in UpdatedTech(s, current) && "" !in ParseTechCreate(s)
  {
    var s := a + ",," + b;
    assert s == a + [','] + ([','] + b);
    assert ([','] + b)[1..] == b;
    SplitAround(a, [','] + b, ',');
    var pieces := Split(s, ',');
    assert pieces == Split(a, ',') + ([""] + Split(b, ','));
    assert pieces[|Split(a, ',')|] == "";
    TrimAllAt(pieces, |Split(a, ',')|);
  }

  /** Entry `i` of the trimmed list is the trim of piece `i`. */
  lemma TrimAllPointwise(parts: seq<string>)
    ensures forall i :: 0 <= i < |parts| ==> TrimAll(parts)[i] == Trim(parts[i])
  {
    forall i | 0 <= i < |parts|
      ensures TrimAll(parts)[i] == Trim(parts[i])
    {
      TrimAllAt(parts, i);
    }
  }

  lemma {:induction false} TrimAllAt(parts: seq<string>, i: nat)
    requires i < |parts|
    ensures TrimAll(parts)[i] == Trim(parts[i])
  {
    assert TrimAll(parts) == [Trim(parts[0])] + TrimAll(parts[1..]);
    if i > 0 {
      TrimAllAt(parts[1..], i - 1);
    }
  }

  /** The create example: "A, B ,, C" gives ["A", "B", "C"]. */
  lemma CreateTechExample()
    ensures ParseTechCreate(Some("A, B ,, C")) == ["A", "B", "C"]
  {
    var pieces := ["A", "B", "", "C"];
    assert NonEmpty(pieces) == ["A", "B", "C"] by {
      assert pieces[1..] == ["B", "", "C"];
      assert pieces[1..][1..] == ["", "C"];
      assert pieces[1..][1..][1..] == ["C"];
      assert pieces[1..][1..][1..][1..] == [];
    }
    SplitExample();
    TrimAllExample();
  }

  lemma SplitExample()
    ensures Split("A, B ,, C", ',') == ["A", " B ", "", " C"]
  {
    assert "A, B ,, C" == "A" + [','] + (" B " + [','] + ("" + [','] + " C"));
    SplitPieces("A", " B ", " C");
  }

  /** Splitting `a,b,,c` with comma-free `a`, `b`, `c`. */
  lemma SplitPieces(a: string, b: string, c: string)
    requires ',' !in a && ',' !in b && ',' !in c
    ensures Split(a + [','] + (b + [','] + ("" + [','] + c)), ',') == [a, b, "", c]
  {
    SplitAround(a, b + [','] + ("" + [','] + c), ',');
    SplitAround(b, "" + [','] + c, ',');
    SplitAround("", c, ',');
    SplitWithoutSeparator(a, ',');
    SplitWithoutSeparator(b, ',');
    SplitWithoutSeparator(c, ',');
  }

  lemma TrimAllExample()
    ensures TrimAll(["A", " B ", "", " C"]) == ["A", "B", "", "C"]
  {
    assert ["A", " B ", "", " C"] == ["A"] + [" B ", "", " C"];
    assert [" B ", "", " C"] == [" B "] + ["", " C"];
    assert ["", " C"] == [""] + [" C"];
    assert [" C"] == [" C"] + [];
    TrimAllCons("A", [" B ", "", " C"]);
    TrimAllCons(" B ", ["", " C"]);
    TrimAllCons("", [" C"]);
    TrimAllCons(" C", []);
    TrimmedIsFixed("A");
    TrimmedIsFixed("");
    TrimSpacedB();
    TrimSpacedC();
  }

  lemma TrimSpacedB()
    ensures Trim(" B ") == "B"
  {
    TrimLeadingSpace("B ");
  }

  lemma TrimSpacedC()
    ensures Trim(" C") == "C"
  {
    TrimLeadingSpace("C");
    TrimmedIsFixed("C");
  }

  /** The tech text the admin form loads, `tech.join(", ")`, parses back to the
      same list on update whenever no entry holds a comma or surrounding
      whitespace; and on create too when no entry is empty. */
  lemma {:induction false} TechJoinRoundTrip(tech: seq<string>)
    requires forall i :: 0 <= i < |tech| ==> CleanTechEntry(tech[i])
    ensures UpdatedTech(Some(Join(tech, ", ")), tech) == tech
    ensures (forall i :: 0 <= i < |tech| ==> tech[i] != "") ==> ParseTechCreate(Some(Join(tech, ", "))) == tech
  {
    if Truthy(Some(Join(tech, ", "))) {
      assert |tech| >= 1;
      SplitTrimJoin(tech);
      FilterKeepsAll(tech, (img: string) => img != "");
    }
  }

  lemma {:induction false} SplitTrimJoin(xs: seq<string>)
    requires |xs| >= 1
    requires forall i :: 0 <= i < |xs| ==> CleanTechEntry(xs[i])
    ensures TrimAll(Split(Join(xs, ", "), ',')) == xs
  {
    if |xs| == 1 {
      SplitTrimSingle(xs);
    } else {
      assert CleanTechEntry(xs[0]);
      SplitTrimJoin(xs[1..]);
      SplitTrimStep(xs);
    }
  }

  /** Trimming the pieces `a`, ` <first>`, `<others>...`: the space goes away. */
  lemma TrimAllSpaced(a: string, rest: seq<string>)
    requires IsTrimmed(a) && |rest| >= 1
    ensures TrimAll([a] + ([[' '] + rest[0]] + rest[1..])) == [a] + TrimAll(rest)
  {
    var tail := [[' '] + rest[0]] + rest[1..];
    assert rest == [rest[0]] + rest[1..];
    TrimmedIsFixed(a);
    TrimLeadingSpace(rest[0]);
    TrimAllCons([' '] + rest[0], rest[1..]);
    TrimAllCons(rest[0], rest[1..]);
    assert TrimAll(tail) == TrimAll(rest);
    TrimAllCons(a, tail);
  }

  lemma SplitTrimStep(xs: seq<string>)
    requires |xs| >= 2 && CleanTechEntry(xs[0])
    requires TrimAll(Split(Join(xs[1..], ", "), ',')) == xs[1..]
    ensures TrimAll(Split(Join(xs, ", "), ',')) == xs
  {
    var rest := Split(Join(xs[1..], ", "), ',');
    SplitJoinStep(xs);
    TrimAllSpaced(xs[0], rest);
    assert xs == [xs[0]] + xs[1..];
  }

  lemma SplitTrimSingle(xs: seq<string>)
    requires |xs| == 1 && CleanTechEntry(xs[0])
    ensures TrimAll(Split(Join(xs, ", "), ',')) == xs
  {
    var x := xs[0];
    assert Join(xs, ", ") == x;
    SplitWithoutSeparator(x, ',');
    TrimmedIsFixed(x);
    assert [x][1..] == [];
    assert TrimAll([x]) == [Trim(x)] + TrimAll([]);
    assert xs == [x];
  }

  /** Splitting `a, <rest>` on commas: the first entry, then the rest's pieces
      with a space in front of the first of them. */
  lemma SplitJoinStep(xs: seq<string>)
    requires |xs| >= 2 && ',' !in xs[0]
    ensures var rest := Split(Join(xs[1..], ", "), ',');
            Split(Join(xs, ", "), ',') == [xs[0]] + ([[' '] + rest[0]] + rest[1..])
  {
    var j := Join(xs[1..], ", ");
    JoinStep(xs);
    SplitAround(xs[0], [' '] + j, ',');
    SplitWithoutSeparator(xs[0], ',');
    SplitConsOther(' ', j, ',');
  }

  lemma JoinStep(xs: seq<string>)
    requires |xs| >= 2
    ensures Join(xs, ", ") == xs[0] + [','] + ([' '] + Join(xs[1..], ", "))
  {
  }

}
