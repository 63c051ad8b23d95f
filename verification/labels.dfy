/** Node labels: substring search as `std::string::find` does it, integer
    parsing as `std::stoi` does it, and the classification of a label into a
    load group, a store group or neither. */
module Labels {
  import opened Wrappers

  /** `pat` occurs somewhere in `s` (`s.find(pat) != npos`). */
  predicate Contains(s: string, pat: string) {
    exists i | 0 <= i <= |s| - |pat| :: OccursAt(s, pat, i)
  }

  /** `pat` occurs in `s` starting at position `i`. */
  predicate OccursAt(s: string, pat: string, i: nat) {
    i + |pat| <= |s| && s[i..i + |pat|] == pat
  }

  /** Position of the first `c` in `s`, or -1 when there is none (`npos`). */
  function FindChar(s: string, c: char): (r: int)
    ensures -1 <= r < |s|
    ensures r == -1 <==> c !in s
    ensures r >= 0 ==> s[r] == c && c !in s[..r]
  {
    if s == [] then -1
    else if s[0] == c then 0
    else
      var r := FindChar(s[1..], c);
      if r == -1 then -1
      else
        assert s[..r + 1] == [s[0]] + s[1..][..r];
        r + 1
  }

  /** The text after the first ';'. The source computes `find(";") + 1`; when
      there is no ';' that is `npos + 1`, which wraps to 0, so the whole
      label is taken. */
  function GroupIdText(lab: string): (t: string)
    ensures ';' in lab ==> |t| < |lab|
    ensures ';' !in lab ==> t == lab
  {
    var pos := FindChar(lab, ';');
    if pos >= 0 then lab[pos + 1..] else lab
  }

  predicate IsSpace(c: char) {
    c == ' ' || 9 <= c as int <= 13
  }

  predicate IsDigit(c: char) {
    '0' <= c <= '9'
  }

  function DigitValue(c: char): nat
    requires IsDigit(c)
  {
    c as int - '0' as int
  }

  /** `s` without its leading white space. */
  function SkipSpaces(s: string): (t: string)
    ensures |t| <= |s| && t == s[|s| - |t|..]
    ensures |t| > 0 ==> !IsSpace(t[0])
    ensures forall i :: 0 <= i < |s| - |t| ==> IsSpace(s[i])
  {
    if s != [] && IsSpace(s[0]) then SkipSpaces(s[1..]) else s
  }

  /** Length of the longest prefix of `s` made of decimal digits. */
  function DigitRun(s: string): (n: nat)
    ensures n <= |s|
    ensures forall i :: 0 <= i < n ==> IsDigit(s[i])
    ensures n < |s| ==> !IsDigit(s[n])
  {
    if s != [] && IsDigit(s[0]) then 1 + DigitRun(s[1..]) else 0
  }

  /** Value of a string of decimal digits. */
  function DigitsValue(d: string): nat
    requires forall i :: 0 <= i < |d| ==> IsDigit(d[i])
  {
    if d == [] then 0 else 10 * DigitsValue(d[..|d| - 1]) + DigitValue(d[|d| - 1])
  }

  const IntMin: int := -0x8000_0000
  const IntMax: int := 0x7FFF_FFFF

  /** `std::stoi(s)`: leading white space, an optional sign, then at least
      one digit; the digits that follow are read and the rest ignored. `None`
      stands for the exceptions it throws: no digits (`invalid_argument`) or
      a value outside the 32-bit `int` range (`out_of_range`). */
  function Stoi(s: string): Option<int>
  {
    var t := SkipSpaces(s);
    var signed := |t| > 0 && (t[0] == '-' || t[0] == '+');
    var u := if signed then t[1..] else t;
    var n := DigitRun(u);
    if n == 0 then None
    else
      var mag: int := DigitsValue(u[..n]);
      var v := if signed && t[0] == '-' then -mag else mag;
      if IntMin <= v <= IntMax then Some(v) else None
  }

  function DigitChar(d: nat): (c: char)
    requires d < 10
    ensures IsDigit(c) && DigitValue(c) == d
  {
    ('0' as int + d) as char
  }

  /** Decimal text of a natural number, as `std::to_string` writes it. */
  function NatToString(n: nat): (s: string)
    ensures |s| >= 1
    ensures forall i :: 0 <= i < |s| ==> IsDigit(s[i])
    ensures DigitsValue(s) == n
  {
    if n < 10 then [DigitChar(n)]
    else
      var s := NatToString(n / 10) + [DigitChar(n % 10)];
      assert s[..|s| - 1] == NatToString(n / 10);
      s
  }

  /** Decimal text of an integer, as `std::to_string` writes it. */
  function IntToString(n: int): string
  {
    if n < 0 then "-" + NatToString(-n) else NatToString(n)
  }

  /** `;` followed by a decimal integer holds only ';', '-' and digits. */
  lemma {:induction false} IdTextChars(n: int)
    ensures forall c :: c in ";" + IntToString(n) ==> c == ';' || c == '-' || IsDigit(c)
  {
    if n < 0 {
      var d := NatToString(-n);
      assert IntToString(n) == "-" + d;
      assert ";" + ("-" + d) == ";-" + d;
      PrefixedDigits(";-", d);
    } else {
      PrefixedDigits(";", NatToString(n));
    }
  }

  lemma PrefixedDigits(pre: string, d: string)
    requires forall j :: 0 <= j < |pre| ==> pre[j] == ';' || pre[j] == '-'
    requires forall j :: 0 <= j < |d| ==> IsDigit(d[j])
    ensures forall c :: c in pre + d ==> c == ';' || c == '-' || IsDigit(c)
  {
    forall c | c in pre + d
      ensures c == ';' || c == '-' || IsDigit(c)
    {
      var i :| 0 <= i < |pre + d| && (pre + d)[i] == c;
      if i >= |pre| {
        assert (pre + d)[i] == d[i - |pre|];
      }
    }
  }

  /** `std::stoi` reads back what `std::to_string` wrote, for every 32-bit value. */
  lemma {:induction false} StoiIntToString(n: int)
    requires IntMin <= n <= IntMax
    ensures Stoi(IntToString(n)) == Some(n)
  {
    if n < 0 {
      StoiNegDigits(NatToString(-n));
    } else {
      StoiDigits(NatToString(n));
    }
  }

  /** `stoi` of a string of digits only. */
  lemma {:induction false} StoiDigits(d: string)
    requires |d| > 0 && forall i :: 0 <= i < |d| ==> IsDigit(d[i])
    ensures Stoi(d) == if DigitsValue(d) <= IntMax then Some(DigitsValue(d) as int) else None
  {
    assert SkipSpaces(d) == d by {
      assert IsDigit(d[0]);
    }
    assert DigitRun(d) == |d| by {
      DigitRunAll(d);
    }
    assert d[..|d|] == d;
  }

  /** `stoi` of a minus sign followed by digits only. */
  lemma {:induction false} StoiNegDigits(d: string)
    requires |d| > 0 && forall i :: 0 <= i < |d| ==> IsDigit(d[i])
    ensures Stoi("-" + d) == if IntMin <= -(DigitsValue(d) as int) then Some(-(DigitsValue(d) as int)) else None
  {
    var s := "-" + d;
    assert SkipSpaces(s) == s;
    assert s[1..] == d;
    DigitRunAll(d);
    assert d[..|d|] == d;
  }

  lemma {:induction false} DigitRunAll(d: string)
    requires forall i :: 0 <= i < |d| ==> IsDigit(d[i])
    ensures DigitRun(d) == |d|
  {
    if d != [] {
      DigitRunAll(d[1..]);
    }
  }

  /** A text with no digit after its white space and sign does not parse. */
  lemma StoiRejectsNonNumeric(s: string)
    requires |s| > 0 && !IsSpace(s[0]) && !IsDigit(s[0]) && s[0] != '-' && s[0] != '+'
    ensures Stoi(s) == None
  {
  }

  /** A pattern none of whose characters occurs in `b` is found in `a + b`
      exactly when it is found in `a`. */
  lemma ContainsAppend(a: string, b: string, pat: string)
    requires |pat| > 0
    requires forall j :: 0 <= j < |pat| ==> pat[j] !in b
    ensures Contains(a + b, pat) <==> Contains(a, pat)
  {
    if Contains(a, pat) {
      var i :| 0 <= i <= |a| - |pat| && OccursAt(a, pat, i);
      assert (a + b)[i..i + |pat|] == a[i..i + |pat|];
      assert OccursAt(a + b, pat, i);
    }
    if Contains(a + b, pat) {
      var i :| 0 <= i <= |a + b| - |pat| && OccursAt(a + b, pat, i);
      var j := i + |pat| - 1;
      assert (a + b)[j] == pat[|pat| - 1];
      assert j < |a|;
      assert a[i..i + |pat|] == (a + b)[i..i + |pat|];
      assert OccursAt(a, pat, i);
    }
  }

  predicate IsLetter(c: char) {
    'a' <= c <= 'z' || 'A' <= c <= 'Z'
  }

  /** A marker made of letters is found in `op;id` exactly when it is found in `op`. */
  lemma MarkerBeforeId(op: string, tail: string, pat: string)
    requires |pat| > 0 && forall j :: 0 <= j < |pat| ==> IsLetter(pat[j])
    requires forall c :: c in tail ==> c == ';' || c == '-' || IsDigit(c)
    ensures Contains(op + tail, pat) <==> Contains(op, pat)
  {
    ContainsAppend(op, tail, pat);
  }

  /** Neither marker is created or destroyed by appending an id part. */
  lemma MarkersBeforeId(op: string, tail: string)
    requires forall c :: c in tail ==> c == ';' || c == '-' || IsDigit(c)
    ensures IsLoadLabel(op + tail) == IsLoadLabel(op)
    ensures IsStoreLabel(op + tail) == IsStoreLabel(op)
  {
    MarkerBeforeId(op, tail, "load");
    MarkerBeforeId(op, tail, "LOD");
    MarkerBeforeId(op, tail, "store");
    MarkerBeforeId(op, tail, "STR");
  }

  /** A load marker: the label mentions "load" or "LOD". */
  predicate IsLoadLabel(lab: string) {
    Contains(lab, "load") || Contains(lab, "LOD")
  }

  /** A store marker: the label mentions "store" or "STR". */
  predicate IsStoreLabel(lab: string) {
    Contains(lab, "store") || Contains(lab, "STR")
  }

  /** What a node label makes of its node. */
  datatype Role = LoadMember(group: int) | StoreMember(group: int) | Unmarked

  /** Label classification of the variable catalogue: the load marker is
      tested first, then the store marker; a marked label must carry an
      integer group id after its first ';' (`None` is the `stoi` failure). */
  function Classify(lab: string): Option<Role>
  {
    if IsLoadLabel(lab) then
      match Stoi(GroupIdText(lab))
      case Some(g) => Some(LoadMember(g))
      case None => None
    else if IsStoreLabel(lab) then
      match Stoi(GroupIdText(lab))
      case Some(g) => Some(StoreMember(g))
      case None => None
    else Some(Unmarked)
  }

  /** Classification of a label whose id text parses to `g`. */
  lemma ClassifyWithId(lab: string, g: int)
    requires Stoi(GroupIdText(lab)) == Some(g)
    ensures Classify(lab) == Some(if IsLoadLabel(lab) then LoadMember(g)
                                  else if IsStoreLabel(lab) then StoreMember(g)
                                  else Unmarked)
  {
  }

  /** In `op;rest` with no ';' in `op`, the group id text is `rest`. */
  lemma IdAfterDelimiter(op: string, rest: string)
    requires ';' !in op
    ensures GroupIdText(op + ";" + rest) == rest
  {
    var lab := op + ";" + rest;
    assert lab[|op|] == ';';
    assert lab[..|op|] == op;
    assert FindChar(lab, ';') == |op|;
    assert lab[|op| + 1..] == rest;
  }

  /** A label written `op;id` with a 32-bit id is a load of group `id` when
      `op` has a load marker (whether or not it also has a store marker), a
      store of group `id` when it has only a store marker, and unmarked
      otherwise. */
  lemma ClassifyTagged(op: string, id: int)
    requires ';' !in op
    requires IntMin <= id <= IntMax
    ensures Classify(op + ";" + IntToString(id)) ==
      Some(if IsLoadLabel(op) then LoadMember(id)
           else if IsStoreLabel(op) then StoreMember(id)
           else Unmarked)
  {
    var digits := IntToString(id);
    var tail := ";" + digits;
    var lab := op + tail;
    assert lab == op + ";" + digits;
    IdAfterDelimiter(op, digits);
    StoiIntToString(id);
    IdTextChars(id);
    MarkersBeforeId(op, tail);
    ClassifyWithId(lab, id);
  }

  /** A marked label without a numeric id is a parse failure: both the bare
      marker and the marker followed by an empty id. */
  lemma ClassifyMissingId(op: string)
    requires IsLoadLabel(op) || IsStoreLabel(op)
    requires ';' !in op
    requires |op| > 0 && !IsSpace(op[0]) && !IsDigit(op[0]) && op[0] != '-' && op[0] != '+'
    ensures Classify(op) == None
    ensures Classify(op + ";") == None
  {
    StoiRejectsNonNumeric(op);
    IdAfterDelimiter(op, "");
    assert op + ";" + "" == op + ";";
    MarkersBeforeId(op, ";");
    assert Stoi(GroupIdText(op + ";")) == None;
    assert IsLoadLabel(op + ";") || IsStoreLabel(op + ";");
  }

  /** With no ';' at all the whole label goes to `stoi`, which reads a
      leading number: a marked label such as "7load" belongs to group 7. */
  lemma ClassifyWithoutDelimiter(c: char, op: string)
    requires IsDigit(c)
    requires ';' !in op
    requires |op| > 0 && !IsDigit(op[0])
    ensures Classify([c] + op) == Some(if IsLoadLabel([c] + op) then LoadMember(DigitValue(c))
                                       else if IsStoreLabel([c] + op) then StoreMember(DigitValue(c))
                                       else Unmarked)
  {
    var lab := [c] + op;
    assert Stoi(GroupIdText(lab)) == Some(DigitValue(c) as int) by {
      assert GroupIdText(lab) == lab;
      assert SkipSpaces(lab) == lab;
      assert lab[1..] == op;
      assert DigitRun(lab) == 1;
      assert lab[..1] == [c];
      assert DigitsValue([c]) == DigitValue(c) by {
        assert [c][..0] == [];
      }
    }
    ClassifyWithId(lab, DigitValue(c));
  }
}
