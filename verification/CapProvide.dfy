/** Running a program with a chosen list of capabilities: the matcher for the comma-separated list,
    the mask built with it, and the calls that cut the bounding set down to the mask. */
module CapProvide {

  const CAP_SETGID := 6
  const CAP_SETUID := 7
  const CAP_SETPCAP := 8
  const CAP_ALL := "cap_all"

  // ---- The list matcher ----

  predicate NameChar(c: char) {
    'a' <= c <= 'z' || c == '_'
  }

  /** What comparing ends in: an answer, the exit for an invalid list, or a read past its end. */
  datatype Outcome = Match | NoMatch | BadName | Overrun

  /** The first comma of `s` from `from` on, or the length. */
  function Comma(s: string, from: nat): (k: nat)
    requires from <= |s|
    ensures from <= k <= |s| && (k < |s| ==> s[k] == ',')
    decreases |s| - from
  {
    if from < |s| && s[from] != ',' then Comma(s, from + 1) else from
  }

  lemma {:induction false} CommaIsFirst(s: string, from: nat, n: nat)
    requires from <= n <= |s|
    requires forall j :: from <= j < n ==> s[j] != ','
    ensures n <= Comma(s, from)
    ensures n == |s| || s[n] == ',' ==> Comma(s, from) == n
    decreases |s| - from
  {
    if from < n {
      CommaIsFirst(s, from + 1, n);
    }
  }

  /** The fields of a list; `Overran` ends those that are read past the end of it. */
  datatype Fields = Done | Overran | Field(text: string, rest: Fields)

  predicate Has(fields: Fields, d: string) {
    fields.Field? && (fields.text == d || Has(fields.rest, d))
  }

  predicate OverranEnd(fields: Fields) {
    match fields
    case Done => false
    case Overran => true
    case Field(_, rest) => OverranEnd(rest)
  }

  /** The fields between commas from `from` on; always at least one. */
  function Split(s: string, from: nat): (fields: Fields)
    requires from <= |s|
    ensures fields.Field?
    decreases |s| - from
  {
    var k := Comma(s, from);
    Field(s[from..k], if k == |s| then Done else Split(s, k + 1))
  }

  /** Where looking for the end of a field begins: the character right after a comma (`after`) is taken
      into the field unseen. */
  function Unseen(after: bool): nat {
    if after then 1 else 0
  }

  /** The fields as the matcher sees them.  A comma right after a comma does not separate, and the end of
      the list right after a comma is overrun. */
  function SeenFields(s: string, from: nat, after: bool): Fields
    requires from <= |s|
    decreases |s| - from
  {
    if after && from == |s| then Overran
    else
      var k := Comma(s, from + Unseen(after));
      Field(s[from..k], if k == |s| then Done else SeenFields(s, k + 1, true))
  }

  predicate NameChars(s: string, lo: nat, hi: nat)
    requires hi <= |s|
  {
    forall j :: lo <= j < hi ==> NameChar(s[j])
  }

  /** The comparison of a name with one field after the other. */
  function Compare(d: string, fields: Fields, after: bool): Outcome {
    match fields
    case Done => NoMatch
    case Overran => Overrun
    case Field(text, rest) =>
      if !NameChars(text, Unseen(after), |text|) then BadName
      else if text == d then Match
      else Compare(d, rest, true)
  }

  /** `flg` and the place in the name after one more character: 0 before the field, 1 while it matches,
      2 once it does not. */
  function Step(d: string, c: char, flg: int, t: nat): (int, nat) {
    if flg == 2 then (2, t + 1) else if t < |d| && c == d[t] then (1, t + 1) else (2, 1)
  }

  /** The state once the characters `from` up to `i` of a field have been read. */
  function State(d: string, s: string, from: nat, i: nat): (int, nat)
    requires from <= i <= |s|
    decreases i - from
  {
    if i == from then (0, 0)
    else
      var (flg, t) := State(d, s, from, i - 1);
      Step(d, s[i - 1], flg, t)
  }

  /** What the walk ends in from character `i` on. */
  function Walk(d: string, s: string, i: nat, flg: int, t: nat): Outcome
    requires i <= |s|
    decreases |s| - i
  {
    if i == |s| then if flg == 1 && t == |d| then Match else NoMatch
    else if !NameChar(s[i]) && s[i] != ',' then BadName
    else if s[i] != ',' then
      var (flg', t') := Step(d, s[i], flg, t);
      Walk(d, s, i + 1, flg', t')
    else if flg == 1 && t == |d| then Match
    else if i + 1 == |s| then Overrun
    else
      var (flg', t') := Step(d, s[i + 1], 0, 0);
      Walk(d, s, i + 2, flg', t')
  }

  lemma {:induction false} StateMeans(d: string, s: string, from: nat, i: nat)
    requires from <= i <= |s|
    ensures var (flg, t) := State(d, s, from, i);
            if i == from then flg == 0 && t == 0
            else if s[from..i] <= d then flg == 1 && t == i - from
            else flg == 2
    decreases i - from
  {
    if from < i {
      StateMeans(d, s, from, i - 1);
      var f, g := s[from..i - 1], s[from..i];
      assert g[..|f|] == f && g[|f|] == s[i - 1];
      assert g <= d ==> f <= d && s[i - 1] == d[|f|];
      if f <= d && |f| < |d| && s[i - 1] == d[|f|] {
        assert g == d[..|f|] + [d[|f|]] == d[..|f| + 1];
      }
    }
  }

  lemma StateDecides(d: string, s: string, from: nat, i: nat)
    requires from <= i <= |s| && d != ""
    ensures (State(d, s, from, i) == (1, |d|)) == (s[from..i] == d)
  {
    StateMeans(d, s, from, i);
  }

  /** A field of name characters that ends at `i`. */
  lemma FieldSeen(s: string, from: nat, after: bool, i: nat)
    requires from + Unseen(after) <= i <= |s| && NameChars(s, from + Unseen(after), i)
    requires i < |s| ==> s[i] == ','
    ensures SeenFields(s, from, after) == Field(s[from..i], if i == |s| then Done else SeenFields(s, i + 1, true))
    ensures NameChars(s[from..i], Unseen(after), |s[from..i]|)
  {
    CommaIsFirst(s, from + Unseen(after), i);
  }

  /** At a comma, or at the end, the field read so far decides, or the next one begins. */
  lemma FieldRead(d: string, s: string, from: nat, after: bool, i: nat)
    requires from + Unseen(after) <= i <= |s| && NameChars(s, from + Unseen(after), i)
    requires i < |s| ==> s[i] == ','
    requires d != ""
    ensures Compare(d, SeenFields(s, from, after), after)
         == if State(d, s, from, i) == (1, |d|) then Match
            else if i == |s| then NoMatch else Compare(d, SeenFields(s, i + 1, true), true)
  {
    FieldSeen(s, from, after, i);
    StateDecides(d, s, from, i);
  }

  lemma AtBadCharacter(d: string, s: string, from: nat, after: bool, i: nat)
    requires from + Unseen(after) <= i < |s| && NameChars(s, from + Unseen(after), i)
    requires !NameChar(s[i]) && s[i] != ','
    ensures Compare(d, SeenFields(s, from, after), after) == BadName
  {
    CommaIsFirst(s, from + Unseen(after), i);
    CommaIsFirst(s, from + Unseen(after), i + 1);
    var text := s[from..Comma(s, from + Unseen(after))];
    assert !NameChar(text[i - from]);
  }

  /** The walk, which sees one character at a time, compares field by field. */
  lemma {:induction false} WalkCompares(d: string, s: string, from: nat, after: bool, i: nat)
    requires d != "" && from + Unseen(after) <= i <= |s| && NameChars(s, from + Unseen(after), i)
    ensures Walk(d, s, i, State(d, s, from, i).0, State(d, s, from, i).1)
         == Compare(d, SeenFields(s, from, after), after)
    decreases |s| - i
  {
    if i == |s| {
      FieldRead(d, s, from, after, i);
    } else if s[i] == ',' {
      FieldRead(d, s, from, after, i);
      if i + 1 < |s| {
        assert State(d, s, i + 1, i + 2) == Step(d, s[i + 1], 0, 0);
        WalkCompares(d, s, i + 1, true, i + 2);
      }
    } else if NameChar(s[i]) {
      WalkCompares(d, s, from, after, i + 1);
    } else {
      AtBadCharacter(d, s, from, after, i);
    }
  }

  /** cap_cmp: `t` walks the name, `i` the list. */
  method CapCmp(d: string, s: string) returns (r: Outcome)
    requires d != ""
    ensures r == Compare(d, SeenFields(s, 0, false), false)
  {
    WalkCompares(d, s, 0, false, 0);
    var flg, t, i := 0, 0, 0;
    while i < |s|
      invariant i <= |s| && t >= 0
      invariant Walk(d, s, i, flg, t) == Compare(d, SeenFields(s, 0, false), false)
      decreases |s| - i
    {
      if !NameChar(s[i]) && s[i] != ',' {
        return BadName;
      }
      if s[i] == ',' {
        if flg == 1 && t == |d| {
          return Match;
        }
        t := 0;
        flg := 0;
        i := i + 1;
        if i == |s| {
          return Overrun;
        }
      }
      if flg != 2 {
        if t < |d| && s[i] == d[t] {
          flg := 1;
        } else {
          t := 0;
          flg := 2;
        }
      }
      t := t + 1;
      i := i + 1;
    }
    r := if flg == 1 && t == |d| then Match else NoMatch;
  }

  lemma {:induction false} NoCommaBefore(s: string, from: nat)
    requires from <= |s|
    ensures forall j :: from <= j < Comma(s, from) ==> s[j] != ','
    decreases |s| - from
  {
    if from < |s| && s[from] != ',' {
      NoCommaBefore(s, from + 1);
    }
  }

  // ---- When the comparison is membership ----

  /** Whether comparing finds nothing wrong in any field. */
  predicate Proper(fields: Fields, after: bool) {
    fields.Field? ==>
      NameChars(fields.text, Unseen(after), |fields.text|) && Proper(fields.rest, true)
  }

  /** When all fields are proper the outcome is membership, or an overrun. */
  lemma {:induction false} CompareIsSeen(d: string, fields: Fields, after: bool)
    requires Proper(fields, after)
    ensures Compare(d, fields, after)
         == if Has(fields, d) then Match else if OverranEnd(fields) then Overrun else NoMatch
  {
    if fields.Field? {
      CompareIsSeen(d, fields.rest, true);
    }
  }

  /** Only proper fields are passed to their end. */
  lemma {:induction false} PassedFields(d: string, fields: Fields, after: bool)
    requires Compare(d, fields, after) == NoMatch || Compare(d, fields, after) == Overrun
    ensures Proper(fields, after) && !Has(fields, d)
    ensures OverranEnd(fields) <==> Compare(d, fields, after) == Overrun
  {
    if fields.Field? {
      PassedFields(d, fields.rest, true);
    }
  }

  lemma SplitAt(s: string, from: nat, k: nat)
    requires from <= |s| && k == Comma(s, from)
    ensures Split(s, from) == Field(s[from..k], if k == |s| then Done else Split(s, k + 1))
  {}

  lemma SeenAt(s: string, from: nat, k: nat)
    requires from < |s| && k == Comma(s, from + 1)
    ensures SeenFields(s, from, true) == Field(s[from..k], if k == |s| then Done else SeenFields(s, k + 1, true))
  {}

  lemma SameRest(text: string, seen: Fields, split: Fields)
    requires text != "" && (seen == split <==> !Has(split, ""))
    ensures Field(text, seen) == Field(text, split) <==> !Has(Field(text, split), "")
  {}

  lemma CommaAfterComma(s: string, from: nat)
    requires from < |s| && s[from] == ','
    ensures Has(Split(s, from), "") && SeenFields(s, from, true) != Split(s, from)
  {
    assert Split(s, from).text == "";
    assert SeenFields(s, from, true).text == s[from..Comma(s, from + 1)] != "";
  }

  lemma EndAfterComma(s: string)
    ensures Has(Split(s, |s|), "") && SeenFields(s, |s|, true) != Split(s, |s|)
  {
    assert Split(s, |s|).text == "";
  }

  /** After a comma: the fields seen are the fields of the split exactly when none of them is empty. */
  lemma {:induction false} SeenAfterComma(s: string, from: nat)
    requires from <= |s|
    ensures SeenFields(s, from, true) == Split(s, from) <==> !Has(Split(s, from), "")
    decreases |s| - from
  {
    if from == |s| {
      EndAfterComma(s);
    } else if s[from] == ',' {
      CommaAfterComma(s, from);
    } else {
      var k := Comma(s, from);
      SplitAt(s, from, k);
      SeenAt(s, from, k);
      assert |s[from..k]| > 0;
      if k == |s| {
        SameRest(s[from..k], Done, Done);
      } else {
        SeenAfterComma(s, k + 1);
        SameRest(s[from..k], SeenFields(s, k + 1, true), Split(s, k + 1));
      }
    }
  }

  function Join(fields: Fields): string {
    if !fields.Field? then "" else if !fields.rest.Field? then fields.text else fields.text + "," + Join(fields.rest)
  }

  /** The split is what its name says: its fields have no comma in them (`FieldsHaveNoComma`), and joined by
      commas they are the list again. */
  lemma {:induction false} SplitJoins(s: string, from: nat)
    requires from <= |s|
    ensures Join(Split(s, from)) == s[from..]
    decreases |s| - from
  {
    var k := Comma(s, from);
    SplitAt(s, from, k);
    if k < |s| {
      SplitJoins(s, k + 1);
      JoinStep(s[from..k], Split(s, k + 1));
      AtSeparator(s, from, k);
    } else {
      assert s[from..k] == s[from..];
    }
  }

  lemma JoinStep(text: string, rest: Fields)
    requires rest.Field?
    ensures Join(Field(text, rest)) == text + "," + Join(rest)
  {}

  lemma AtSeparator(s: string, from: nat, k: nat)
    requires from <= k < |s| && s[k] == ','
    ensures s[from..] == s[from..k] + "," + s[k + 1..]
  {}

  /** What may be in a capability list besides commas. */
  lemma NameCharacters(c: char)
    ensures NameChar(c) <==> c in "abcdefghijklmnopqrstuvwxyz_"
  {}

  lemma {:induction false} SplitEnds(s: string, from: nat)
    requires from <= |s|
    ensures !OverranEnd(Split(s, from))
    decreases |s| - from
  {
    var k := Comma(s, from);
    if k < |s| {
      SplitEnds(s, k + 1);
    }
  }

  /** The matcher sees the comma-separated list for what it is exactly when no field after the first
      is empty. */
  lemma SeesTheSplit(s: string)
    ensures SeenFields(s, 0, false) == Split(s, 0) <==> !Has(Split(s, 0).rest, "")
  {
    var k := Comma(s, 0);
    if k < |s| {
      SeenAfterComma(s, k + 1);
    }
  }

  /** Every comma from `from` on is followed by something that is not a comma. */
  predicate Separated(s: string, from: nat) {
    forall i :: from <= i < |s| && s[i] == ',' ==> i + 1 < |s| && s[i + 1] != ','
  }

  /** A character that is not a comma and does not come right after one. */
  predicate Exposed(s: string, i: nat)
    requires i < |s|
  {
    s[i] != ',' && (i == 0 || s[i - 1] != ',')
  }

  /** From `from` on such characters are name characters. */
  predicate Checked(s: string, from: nat) {
    forall i: nat :: from <= i < |s| && Exposed(s, i) ==> NameChar(s[i])
  }

  lemma {:induction false} NoEmptyField(s: string, from: nat)
    requires from <= |s|
    ensures !Has(Split(s, from), "") <==> from < |s| && s[from] != ',' && Separated(s, from)
    decreases |s| - from
  {
    var k := Comma(s, from);
    NoCommaBefore(s, from);
    if k < |s| {
      NoEmptyField(s, k + 1);
    }
  }

  /** No field after the first is empty exactly when every comma is followed by another character. */
  lemma NoLaterEmptyField(s: string)
    ensures !Has(Split(s, 0).rest, "") <==> Separated(s, 0)
  {
    var k := Comma(s, 0);
    NoCommaBefore(s, 0);
    if k < |s| {
      NoEmptyField(s, k + 1);
    }
  }

  lemma NameCharsShifted(s: string, from: nat, lo: nat, k: nat)
    requires from <= lo <= k <= |s|
    ensures NameChars(s[from..k], lo - from, k - from) <==> NameChars(s, lo, k)
  {
    var text := s[from..k];
    assert forall j :: lo <= j < k ==> text[j - from] == s[j];
    if NameChars(text, lo - from, k - from) {
      forall j | lo <= j < k ensures NameChar(s[j]) {
        assert NameChar(text[j - from]);
      }
    }
  }

  /** The characters of a field up to the comma `k` are exposed; the two from the comma on are not. */
  lemma CheckedField(s: string, lo: nat, k: nat)
    requires lo <= k <= |s| && (lo == 0 || s[lo - 1] != ',')
    requires forall j :: lo <= j < k ==> s[j] != ','
    requires k < |s| ==> s[k] == ','
    ensures Checked(s, lo) <==> NameChars(s, lo, k) && Checked(s, k + 2)
  {
    assert forall j: nat :: lo <= j < k ==> Exposed(s, j);
    assert forall j: nat :: k <= j < k + 2 && j < |s| ==> !Exposed(s, j);
  }

  /** Among separated fields after a comma, those seen are proper exactly when the text passes the check. */
  lemma {:induction false} ProperAfterComma(s: string, from: nat)
    requires from < |s| && s[from] != ',' && Separated(s, from)
    ensures Proper(SeenFields(s, from, true), true) <==> Checked(s, from + 1)
    decreases |s| - from
  {
    var k := Comma(s, from + 1);
    NoCommaBefore(s, from + 1);
    NameCharsShifted(s, from, from + 1, k);
    CheckedField(s, from + 1, k);
    ProperField(s, from, true, k);
    if k < |s| {
      NextField(s, from, k);
      ProperAfterComma(s, k + 1);
    }
  }

  lemma ProperText(s: string)
    requires Separated(s, 0)
    ensures Proper(SeenFields(s, 0, false), false) <==> Checked(s, 0)
  {
    var k := Comma(s, 0);
    NoCommaBefore(s, 0);
    CheckedField(s, 0, k);
    NameCharsShifted(s, 0, 0, k);
    ProperField(s, 0, false, k);
    if k < |s| {
      NextField(s, 0, k);
      ProperAfterComma(s, k + 1);
    }
  }

  lemma NextField(s: string, from: nat, k: nat)
    requires Separated(s, from) && from <= k < |s| && s[k] == ','
    ensures k + 1 < |s| && s[k + 1] != ',' && Separated(s, k + 1)
  {}

  lemma ProperField(s: string, from: nat, after: bool, k: nat)
    requires from + Unseen(after) <= |s| && k == Comma(s, from + Unseen(after))
    ensures Proper(SeenFields(s, from, after), after)
       <==> NameChars(s[from..k], Unseen(after), k - from)
            && (k < |s| ==> Proper(SeenFields(s, k + 1, true), true))
  {}

  lemma {:induction false} SplitIsShort(s: string, from: nat, d: string)
    requires from <= |s| < |d|
    ensures !Has(Split(s, from), d)
    decreases |s| - from
  {
    var k := Comma(s, from);
    if k < |s| {
      SplitIsShort(s, k + 1, d);
    }
  }

  lemma {:induction false} SeenAreShort(s: string, from: nat, after: bool, d: string)
    requires from <= |s| < |d|
    ensures !Has(SeenFields(s, from, after), d)
    decreases |s| - from
  {
    if !(after && from == |s|) {
      var k := Comma(s, from + Unseen(after));
      assert |s[from..k]| < |d|;
      if k < |s| {
        SeenAreShort(s, k + 1, true, d);
      }
    }
  }

  lemma {:induction false} FieldsHaveNoComma(s: string, from: nat, d: string)
    requires from <= |s| && Has(Split(s, from), d)
    ensures ',' !in d
    decreases |s| - from
  {
    var k := Comma(s, from);
    NoCommaBefore(s, from);
    if d != s[from..k] {
      FieldsHaveNoComma(s, k + 1, d);
    }
  }

  /** An empty field after a comma makes the matcher overrun the list, or see a field that has a comma in
      it. */
  lemma {:induction false} EmptyFieldIsSwallowed(s: string, from: nat) returns (d: string)
    requires from <= |s| && Has(Split(s, from), "") && !OverranEnd(SeenFields(s, from, true))
    ensures ',' in d && Has(SeenFields(s, from, true), d)
    decreases |s| - from
  {
    var k := Comma(s, from + 1);
    if s[from] == ',' {
      d := s[from..k];
      assert d[0] == ',';
    } else {
      d := EmptyFieldIsSwallowed(s, k + 1);
    }
  }

  /** The comparison answers whether a name is in the comma split. */
  predicate IsMembership(s: string, d: string) {
    Compare(d, SeenFields(s, 0, false), false) == if Has(Split(s, 0), d) then Match else NoMatch
  }

  /** What a caller can check: every comma is followed by a character that is not a comma, and every other
      character is a name character. */
  predicate WellFormed(s: string) {
    Separated(s, 0) && Checked(s, 0)
  }

  lemma WellFormedIsMembership(s: string, d: string)
    requires WellFormed(s)
    ensures IsMembership(s, d)
  {
    NoLaterEmptyField(s);
    SeesTheSplit(s);
    SplitEnds(s, 0);
    ProperText(s);
    CompareIsSeen(d, SeenFields(s, 0, false), false);
  }

  /** A long name tells whether the fields are proper and the end is found; the text of a swallowed comma
      tells whether one was. */
  lemma MembershipIsWellFormed(s: string)
    requires forall d :: d != "" ==> IsMembership(s, d)
    ensures WellFormed(s)
  {
    var seen, long := SeenFields(s, 0, false), s + "a";
    SplitIsShort(s, 0, long);
    SeenAreShort(s, 0, false, long);
    assert IsMembership(s, long);
    PassedFields(long, seen, false);
    if Has(Split(s, 0).rest, "") {
      var k := Comma(s, 0);
      var d := EmptyFieldIsSwallowed(s, k + 1);
      assert IsMembership(s, d);
      CompareIsSeen(d, seen, false);
      FieldsHaveNoComma(s, 0, d);
      assert false;
    }
    NoLaterEmptyField(s);
    ProperText(s);
  }

  /** Comparing is membership in the comma split, for every name, exactly for well-formed lists. */
  lemma MembershipExactly(s: string)
    ensures (forall d :: d != "" ==> IsMembership(s, d)) <==> WellFormed(s)
  {
    if forall d :: d != "" ==> IsMembership(s, d) {
      MembershipIsWellFormed(s);
    }
    if WellFormed(s) {
      forall d | d != "" ensures IsMembership(s, d) {
        WellFormedIsMembership(s, d);
      }
    }
  }

  /** An empty field swallows the one after it: "a,,b" does not name b. */
  lemma EmptyFieldLosesNext()
    ensures Has(Split("a,,b", 0), "b") && Compare("b", SeenFields("a,,b", 0, false), false) == NoMatch
  {
    var s := "a,,b";
    assert Comma(s, 0) == 1 && s[0..1] == "a";
    assert Split(s, 3) == Field(s[3..4], Done) && s[3..4] == "b";
    assert Split(s, 2).rest == Split(s, 3);
    assert SeenFields(s, 2, true) == Field(s[2..4], Done) && s[2..4] == ",b";
  }

  // ---- When the list is overrun ----

  /** How many of the characters from `from` to the end are commas that only commas follow. */
  function TrailingCommas(s: string, from: nat): (n: nat)
    requires from <= |s|
    ensures n <= |s| - from
    decreases |s| - from
  {
    if from == |s| then 0
    else
      var n := TrailingCommas(s, from + 1);
      if n == |s| - from - 1 && s[from] == ',' then n + 1 else n
  }

  lemma {:induction false} TrailingFrom(s: string, from: nat, at: nat)
    requires from <= at <= |s| && TrailingCommas(s, at) < |s| - at
    ensures TrailingCommas(s, from) == TrailingCommas(s, at)
    decreases at - from
  {
    if from < at {
      TrailingFrom(s, from + 1, at);
    }
  }

  lemma {:induction false} NoTrailingCommas(s: string, from: nat)
    requires from <= |s| && forall j :: from <= j < |s| ==> s[j] != ','
    ensures TrailingCommas(s, from) == 0
    decreases |s| - from
  {
    if from < |s| {
      NoTrailingCommas(s, from + 1);
    }
  }

  /** Right after a comma: one more comma in the trailing run turns the outcome. */
  predicate Odd(s: string, from: nat)
    requires from <= |s|
  {
    var n := TrailingCommas(s, from);
    (n % 2 == 1) == (n < |s| - from)
  }

  /** A field that ends at the comma `k` does not change whether the rest is overrun. */
  lemma OddAcrossField(s: string, from: nat, k: nat)
    requires from < k < |s| && s[k] == ',' && forall j :: from < j < k ==> s[j] != ','
    ensures Odd(s, from) <==> Odd(s, k + 1)
  {
    var n := TrailingCommas(s, k + 1);
    if n < |s| - (k + 1) {
      TrailingFrom(s, from, k + 1);
    } else if k > from + 1 {
      TrailingFrom(s, from, k - 1);
    }
  }

  lemma {:induction false} OverrunAfterComma(s: string, from: nat)
    requires from <= |s|
    ensures OverranEnd(SeenFields(s, from, true)) <==> Odd(s, from)
    decreases |s| - from
  {
    if from < |s| {
      var k := Comma(s, from + 1);
      NoCommaBefore(s, from + 1);
      SeenAt(s, from, k);
      if k < |s| {
        OddAcrossField(s, from, k);
        OverrunAfterComma(s, k + 1);
      } else {
        OddLastField(s, from);
      }
    }
  }

  lemma OddLastField(s: string, from: nat)
    requires from < |s| && forall j :: from < j < |s| ==> s[j] != ','
    ensures !Odd(s, from)
  {
    NoTrailingCommas(s, from + 1);
  }

  lemma OddFromStart(s: string, k: nat)
    requires k < |s| && s[k] == ',' && forall j :: 0 <= j < k ==> s[j] != ','
    ensures TrailingCommas(s, 0) % 2 == 1 <==> Odd(s, k + 1)
  {
    if TrailingCommas(s, k + 1) < |s| - (k + 1) {
      TrailingFrom(s, 0, k + 1);
    } else if k > 0 {
      TrailingFrom(s, 0, k - 1);
    }
  }

  /** The fields seen run past the end exactly when the list ends in an odd number of commas. */
  lemma OverrunExactly(s: string)
    ensures OverranEnd(SeenFields(s, 0, false)) <==> TrailingCommas(s, 0) % 2 == 1
  {
    var k := Comma(s, 0);
    NoCommaBefore(s, 0);
    if k == |s| {
      NoTrailingCommas(s, 0);
    } else {
      OverrunAfterComma(s, k + 1);
      OddFromStart(s, k);
    }
  }

  /** A comparison overruns the list exactly when nothing in it is wrong, the name is not found, and it
      ends in an odd number of commas. */
  lemma CompareOverruns(d: string, s: string)
    ensures Compare(d, SeenFields(s, 0, false), false) == Overrun
       <==> Proper(SeenFields(s, 0, false), false) && !Has(SeenFields(s, 0, false), d)
            && TrailingCommas(s, 0) % 2 == 1
  {
    var seen := SeenFields(s, 0, false);
    OverrunExactly(s);
    if Proper(seen, false) {
      CompareIsSeen(d, seen, false);
    } else if Compare(d, seen, false) == Overrun {
      PassedFields(d, seen, false);
    }
  }

  // ---- The mask ----

  /** The capabilities a list asks for: those named, or all of them. */
  function Requested(names: seq<string>, s: string): set<nat> {
    set j | 0 <= j < |names| && (Has(Split(s, 0), names[j]) || Has(Split(s, 0), CAP_ALL))
  }

  /** What main makes of one name: a match of the name itself or, failing that, of cap_all. */
  function Wanted(name: string, s: string): Outcome {
    var r := Compare(name, SeenFields(s, 0, false), false);
    if r == NoMatch then Compare(CAP_ALL, SeenFields(s, 0, false), false) else r
  }

  predicate Answers(r: Outcome) {
    r == Match || r == NoMatch
  }

  lemma WantedIsRequested(name: string, s: string)
    requires WellFormed(s)
    ensures Wanted(name, s) == if Has(Split(s, 0), name) || Has(Split(s, 0), CAP_ALL) then Match else NoMatch
  {
    WellFormedIsMembership(s, name);
    WellFormedIsMembership(s, CAP_ALL);
  }

  /** Reading the list in main.  `names[j]` is the name of capability j; any outcome of the matcher other
      than an answer ends the program (the overrun by undefined behaviour). */
  method BuildMask(names: seq<string>, s: string) returns (exits: bool, caps: set<nat>)
    requires forall j :: 0 <= j < |names| ==> names[j] != ""
    ensures exits <==> exists j :: 0 <= j < |names| && !Answers(Wanted(names[j], s))
    ensures !exits ==> forall j: nat :: j in caps <==> j < |names| && Wanted(names[j], s) == Match
    ensures WellFormed(s) ==> !exits && caps == Requested(names, s)
  {
    caps := {};
    exits := false;
    for j := 0 to |names|
      invariant !exits
      invariant forall k: nat :: k in caps <==> k < j && Wanted(names[k], s) == Match
      invariant forall k :: 0 <= k < j ==> Answers(Wanted(names[k], s))
    {
      var r := CapCmp(names[j], s);
      if r == NoMatch {
        r := CapCmp(CAP_ALL, s);
      }
      assert r == Wanted(names[j], s);
      if r == BadName || r == Overrun {
        if WellFormed(s) {
          WantedIsRequested(names[j], s);
        }
        return true, caps;
      }
      if r == Match {
        caps := caps + {j};
      }
    }
    if WellFormed(s) {
      forall j | 0 <= j < |names|
        ensures Wanted(names[j], s) == Match <==> j in Requested(names, s)
      {
        WantedIsRequested(names[j], s);
      }
    }
  }

  // ---- Cutting down the bounding set ----

  datatype Prctl = BoundingDrop(cap: nat) | AmbientRaise(cap: nat)

  /** The process as far as the kernel's answers go.  A call may be refused; `log` lists the calls made
      and `refused` tells whether any drop was. */
  class Process {
    var bounding: set<nat>
    var log: seq<Prctl>
    var refused: bool

    method Drop(cap: nat) returns (code: int)
      modifies this
      ensures log == old(log) + [BoundingDrop(cap)]
      ensures code == 0 || code == -1
      ensures bounding == if code == 0 then old(bounding) - {cap} else old(bounding)
      ensures refused == (old(refused) || code == -1)
    {
      log := log + [BoundingDrop(cap)];
      var yes: bool := *;
      if yes {
        bounding := bounding - {cap};
        return 0;
      }
      refused := true;
      return -1;
    }

    method Raise(cap: nat) returns (code: int)
      modifies this`log
      ensures log == old(log) + [AmbientRaise(cap)]
    {
      log := log + [AmbientRaise(cap)];
      code := *;
    }

    /** caps_set: drops every known capability that is not to be kept. */
    method CapsSet(keep: set<nat>, lastCap: nat)
      modifies this
      ensures old(bounding) * keep <= bounding <= old(bounding)
      ensures forall i :: i in old(bounding) && i !in bounding ==> i <= lastCap
      ensures !refused ==> !old(refused)
      ensures !refused ==> forall i :: i <= lastCap && i in bounding ==> i in keep
      ensures old(log) <= log
      ensures forall k :: |old(log)| <= k < |log| ==> log[k].BoundingDrop? && log[k].cap !in keep
    {
      for i := 0 to lastCap + 1
        invariant old(bounding) * keep <= bounding <= old(bounding)
        invariant forall k :: k in old(bounding) && k !in bounding ==> k <= lastCap
        invariant !refused ==> !old(refused)
        invariant !refused ==> forall k :: 0 <= k < i && k in bounding ==> k in keep
        invariant old(log) <= log
        invariant forall k :: |old(log)| <= k < |log| ==> log[k].BoundingDrop? && log[k].cap !in keep
      {
        if i !in keep {
          var code := Drop(i);
        }
      }
    }

    /** The last part of main: raise what is wanted, drop the rest, and drop CAP_SETPCAP, which the other
        drops need, only when all else is done. */
    method RaiseAndDrop(caps: set<nat>, lastCap: nat)
      requires lastCap >= CAP_SETPCAP
      modifies this
      ensures old(bounding) * caps <= bounding <= old(bounding)
      ensures forall i :: i in old(bounding) && i !in bounding ==> i <= lastCap
      ensures !refused ==> !old(refused)
      ensures !refused ==> forall i :: i <= lastCap && i in bounding ==> i in caps
      ensures old(log) <= log
      ensures forall k :: |old(log)| <= k < |log| - 1 ==> log[k] != BoundingDrop(CAP_SETPCAP)
      ensures forall k :: |old(log)| <= k < |log| ==> (log[k].AmbientRaise? <==> log[k].cap in caps)
      ensures forall i :: i in caps && i <= lastCap ==> AmbientRaise(i) in log
    {
      var flg := false;
      for i := 0 to lastCap + 1
        invariant old(bounding) * caps <= bounding <= old(bounding)
        invariant forall k :: k in old(bounding) && k !in bounding ==> k <= lastCap
        invariant !refused ==> !old(refused)
        invariant !refused ==> forall k :: 0 <= k < i && k in bounding ==> k in caps || k == CAP_SETPCAP
        invariant flg <==> i > CAP_SETPCAP && CAP_SETPCAP !in caps
        invariant old(log) <= log
        invariant forall k :: |old(log)| <= k < |log| ==> log[k] != BoundingDrop(CAP_SETPCAP)
        invariant forall k :: |old(log)| <= k < |log| ==> (log[k].AmbientRaise? <==> log[k].cap in caps)
        invariant forall k :: k in caps && k < i ==> AmbientRaise(k) in log
      {
        if i in caps {
          var err := Raise(i);
        } else if i != CAP_SETPCAP {
          var err := Drop(i);
        } else {
          flg := true;
        }
      }
      if flg {
        var err := Drop(CAP_SETPCAP);
      }
    }

    /** In the first pass, up to the call number `first`, only capabilities are dropped that are not wanted
        and not needed for what follows.  After it exactly the wanted ones are raised, and CAP_SETPCAP is
        dropped by the last call of all if at all. */
    ghost predicate InOrder(start: nat, first: nat, caps: set<nat>, lastCap: nat)
      reads this`log
    {
      && start <= first <= |log|
      && (forall k :: start <= k < first ==>
                        && log[k].BoundingDrop? && log[k].cap !in caps
                        && log[k].cap !in {CAP_SETPCAP, CAP_SETGID, CAP_SETUID})
      && (forall k :: first <= k < |log| ==> (log[k].AmbientRaise? <==> log[k].cap in caps))
      && (forall k :: first <= k < |log| - 1 ==> log[k] != BoundingDrop(CAP_SETPCAP))
      && (forall i :: i in caps && i <= lastCap ==> AmbientRaise(i) in log)
    }

    /** Both steps as main runs them: with no drop refused, what is left of the known capabilities is
        what was there and asked for; a capability that was asked for is never lost. */
    method Confine(caps: set<nat>, lastCap: nat) returns (ghost first: nat)
      requires lastCap >= CAP_SETPCAP
      modifies this
      ensures old(bounding) * caps <= bounding <= old(bounding)
      ensures !refused ==> forall i :: i <= lastCap ==> (i in bounding <==> i in old(bounding) && i in caps)
      ensures forall i :: i > lastCap ==> (i in bounding <==> i in old(bounding))
      ensures old(log) <= log && InOrder(|old(log)|, first, caps, lastCap)
    {
      CapsSet({CAP_SETPCAP, CAP_SETGID, CAP_SETUID} + caps, lastCap);
      first := |log|;
      RaiseAndDrop(caps, lastCap);
    }

    /** From the list to the bounding set: if the list has no empty field and no drop is refused, exactly
        the capabilities it names are left of those the process had; all of them if it names cap_all. */
    method LimitTo(names: seq<string>, s: string) returns (exits: bool, ghost first: nat, ghost caps: set<nat>)
      requires |names| > CAP_SETPCAP && forall j :: 0 <= j < |names| ==> names[j] != ""
      modifies this
      ensures exits ==> bounding == old(bounding) && log == old(log) && !WellFormed(s)
      ensures !exits ==> forall i: nat :: i in caps <==> i < |names| && Wanted(names[i], s) == Match
      ensures !exits ==> old(log) <= log && InOrder(|old(log)|, first, caps, |names| - 1)
      ensures !exits && !refused ==>
                forall i :: 0 <= i < |names| ==> (i in bounding <==> i in old(bounding) && i in caps)
      ensures !exits && WellFormed(s) ==> caps == Requested(names, s)
    {
      var asked;
      exits, asked := BuildMask(names, s);
      caps := asked;
      first := |log|;
      if !exits {
        first := Confine(asked, |names| - 1);
      }
    }
  }
}
