/** The configuration app.py reads from its environment at start-up. */
module Config {
  import opened Wrappers
  import opened Text

  /**
   * The pieces of a comma-split value, each stripped, the empty ones dropped,
   * in their original order.
   */
  function NonEmptyStripped(pieces: seq<string>): (r: seq<string>)
    ensures |r| <= |pieces|
    ensures forall i :: 0 <= i < |r| ==> r[i] != [] && IsStripped(r[i])
    ensures r == [] <==> forall j :: 0 <= j < |pieces| ==> IsBlank(pieces[j])
  {
    if pieces == [] then []
    else
      var rest := NonEmptyStripped(pieces[1..]);
      assert forall j :: 1 <= j < |pieces| ==> pieces[j] == pieces[1..][j - 1];
      var p := Strip(pieces[0]);
      StripSpec(pieces[0]);
      if p == [] then rest else [p] + rest
  }

  /** A destination is the stripped form of a piece that is not blank, and every such piece gives one. */
  lemma {:induction false} NonEmptyStrippedMembers(pieces: seq<string>)
    ensures forall d :: d in NonEmptyStripped(pieces) <==>
      exists j :: 0 <= j < |pieces| && !IsBlank(pieces[j]) && d == Strip(pieces[j])
  {
    if pieces != [] {
      NonEmptyStrippedMembers(pieces[1..]);
      StripSpec(pieces[0]);
      assert forall j :: 1 <= j < |pieces| ==> pieces[j] == pieces[1..][j - 1];
      forall d | exists j :: 0 <= j < |pieces| && !IsBlank(pieces[j]) && d == Strip(pieces[j])
        ensures d in NonEmptyStripped(pieces)
      {
        var j :| 0 <= j < |pieces| && !IsBlank(pieces[j]) && d == Strip(pieces[j]);
        if j > 0 {
          assert pieces[1..][j - 1] == pieces[j];
        }
      }
    }
  }

  /** One piece gives its stripped form, or nothing when it is blank. */
  lemma NonEmptyStrippedOne(p: string)
    ensures NonEmptyStripped([p]) == if IsBlank(p) then [] else [Strip(p)]
  {
    StripSpec(p);
    assert [p][1..] == [];
  }

  /** The pieces are handled one by one, in order: the kept pieces of a concatenation are concatenated. */
  lemma {:induction false} NonEmptyStrippedConcat(a: seq<string>, b: seq<string>)
    ensures NonEmptyStripped(a + b) == NonEmptyStripped(a) + NonEmptyStripped(b)
    decreases |a|
  {
    if a == [] {
      assert a + b == b;
    } else {
      assert (a + b)[0] == a[0];
      assert (a + b)[1..] == a[1..] + b;
      NonEmptyStrippedConcat(a[1..], b);
    }
  }

  /**
   * `DEST_NUMBERS`: the environment value (default "") split on commas, each
   * piece stripped, empty pieces dropped. No destination is empty, starts or
   * ends with white space, or holds a comma.
   */
  function DestNumbers(env: Option<string>): (r: seq<string>)
    ensures forall i :: 0 <= i < |r| ==> r[i] != [] && IsStripped(r[i]) && ',' !in r[i]
    ensures env.None? ==> r == []
  {
    var pieces := Split(env.GetOr(""), ',');
    var r := NonEmptyStripped(pieces);
    NonEmptyStrippedMembers(pieces);
    forall i | 0 <= i < |r| ensures ',' !in r[i] {
      assert r[i] in r;
      var j :| 0 <= j < |pieces| && !IsBlank(pieces[j]) && r[i] == Strip(pieces[j]);
      StripIsSlice(pieces[j]);
    }
    r
  }

  /** A value without a comma gives its stripped form as the one destination, or none when it is blank. */
  lemma DestNumbersOnePiece(raw: string)
    requires ',' !in raw
    ensures DestNumbers(Some(raw)) == if IsBlank(raw) then [] else [Strip(raw)]
  {
    SplitJoin([raw], ',');
    NonEmptyStrippedOne(raw);
  }

  /**
   * The destinations of `x,y` are those of `x` followed by those of `y`:
   * with `DestNumbersOnePiece` this fixes the list, its order and its
   * repetitions, for every value.
   */
  lemma DestNumbersAppend(x: string, y: string)
    ensures DestNumbers(Some(x + [','] + y)) == DestNumbers(Some(x)) + DestNumbers(Some(y))
  {
    SplitConcat(x, y, ',');
    NonEmptyStrippedConcat(Split(x, ','), Split(y, ','));
  }

  /** `strip()` only removes characters: every character it keeps was in its input. */
  lemma StripIsSlice(s: string)
    ensures forall c :: c in Strip(s) ==> c in s
  {
    var t := TrimStart(s);
    TrimStartSpec(s);
    TrimEndSpec(t);
    assert forall c :: c in TrimEnd(t) ==> c in t;
    assert forall c :: c in t ==> c in s;
  }

  /** Every character is the separator or white space. */
  predicate OnlySeparatorsAndSpace(s: string, sep: char) {
    forall i :: 0 <= i < |s| ==> s[i] == sep || IsSpace(s[i])
  }

  /** Every piece is blank. */
  predicate AllBlank(parts: seq<string>) {
    forall j :: 0 <= j < |parts| ==> IsBlank(parts[j])
  }

  /**
   * `if not DEST_NUMBERS` holds exactly when the configured value consists of
   * commas and white space only.
   */
  lemma NoDestinationsIff(raw: string)
    ensures DestNumbers(Some(raw)) == [] <==> OnlySeparatorsAndSpace(raw, ',')
  {
    JoinOnlySeparatorsAndBlanks(Split(raw, ','), ',');
  }

  /** A join consists of separators and white space exactly when every piece is blank. */
  lemma {:induction false} JoinOnlySeparatorsAndBlanks(parts: seq<string>, sep: char)
    requires !IsSpace(sep)
    requires forall i :: 0 <= i < |parts| ==> sep !in parts[i]
    ensures OnlySeparatorsAndSpace(Join(parts, sep), sep) <==> AllBlank(parts)
    decreases |parts|
  {
    if |parts| == 1 {
      SeparatorFreeIsBlank(parts[0], sep);
    } else if |parts| > 1 {
      var head, rest := parts[0], parts[1..];
      JoinOnlySeparatorsAndBlanks(rest, sep);
      SeparatorFreeIsBlank(head, sep);
      OnlySeparatorsConcat(head + [sep], Join(rest, sep), sep);
      OnlySeparatorsConcat(head, [sep], sep);
      assert AllBlank(parts) <==> IsBlank(head) && AllBlank(rest) by {
        assert forall j :: 1 <= j < |parts| ==> parts[j] == rest[j - 1];
      }
    }
  }

  lemma SeparatorFreeIsBlank(s: string, sep: char)
    requires sep !in s
    ensures OnlySeparatorsAndSpace(s, sep) <==> IsBlank(s)
  {
    assert forall i :: 0 <= i < |s| ==> s[i] in s;
  }

  lemma OnlySeparatorsConcat(a: string, b: string, sep: char)
    ensures OnlySeparatorsAndSpace(a + b, sep) <==> OnlySeparatorsAndSpace(a, sep) && OnlySeparatorsAndSpace(b, sep)
  {
    assert forall i :: 0 <= i < |a| ==> (a + b)[i] == a[i];
    assert forall i :: 0 <= i < |b| ==> (a + b)[|a| + i] == b[i];
    if OnlySeparatorsAndSpace(a, sep) && OnlySeparatorsAndSpace(b, sep) {
      forall i | 0 <= i < |a + b| ensures (a + b)[i] == sep || IsSpace((a + b)[i]) {
        if i >= |a| { assert (a + b)[i] == b[i - |a|]; }
      }
    }
  }

  /** `SEND_MODE`: the environment value (default "today"), lower-cased. */
  function SendMode(env: Option<string>): (r: string)
    ensures |r| == |env.GetOr("today")|
    ensures forall i :: 0 <= i < |r| ==> !IsUpper(r[i])
    ensures forall i :: 0 <= i < |r| ==> r[i] == LowerChar(env.GetOr("today")[i])
    ensures env.None? ==> r == "today"
  {
    LowerSpec(env.GetOr("today"));
    Lower(env.GetOr("today"))
  }
}
