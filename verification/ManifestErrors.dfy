/** Exactly which bytes are read as a manifest without an error. */
module ManifestErrors {
  import opened Wrappers
  import opened Bytes
  import opened ManifestText

  // ----- lines -----

  /** The lines of a text, as they are cut out one by one. */
  function LinesIn(data: Text, ofs: nat): seq<Text>
    decreases |data| - ofs
  {
    if ofs < |data| && data[ofs] != NUL then
      var e := LineEnd(data, ofs, LINE_BYTES);
      LineEndMoves(data, ofs);
      [data[ofs..e]] + LinesIn(data, SkipEnd(data, e))
    else []
  }

  /** The longest piece of up to 1023 bytes without a mark that ends lines. */
  ghost predicate PieceAt(data: Text, ofs: nat, line: Text)
  {
    var e := ofs + |line|;
    && |line| <= 1023 && e <= |data| && data[ofs..e] == line && 0 !in line && 10 !in line && 13 !in line
    && (|line| == 1023 || e == |data| || data[e] == 0 || data[e] == 10 || data[e] == 13)
  }

  /** Lines end with a line feed, a carriage return or both, and at the latest after 1023 bytes;
      the text ends with a zero byte. */
  lemma FirstLine(data: Text, ofs: nat)
    ensures LinesIn(data, ofs) == [] <==> ofs >= |data| || data[ofs] == 0
    ensures LinesIn(data, ofs) != [] ==>
      var line := LinesIn(data, ofs)[0];
      var e := ofs + |line|;
      && PieceAt(data, ofs, line)
      && LinesIn(data, ofs)[1..] ==
         LinesIn(data, if e < |data| && data[e] == 10 then e + 1
                       else if e < |data| && data[e] == 13 then (if e + 1 < |data| && data[e + 1] == 10 then e + 2 else e + 1)
                       else e)
  {
    hide LineEnd, PieceAt, SkipEnd;
    if ofs < |data| && data[ofs] != NUL {
      var e := LineEnd(data, ofs, LINE_BYTES);
      PieceTaken(data, ofs);
      SkippedTo(data, e);
      hide LinesIn;
      LinesHere(data, ofs);
    }
  }

  lemma LinesHere(data: Text, ofs: nat)
    requires ofs < |data| && data[ofs] != NUL
    ensures var e := LineEnd(data, ofs, LINE_BYTES); LinesIn(data, ofs) == [data[ofs..e]] + LinesIn(data, SkipEnd(data, e))
  {
  }

  lemma SkippedTo(data: Text, e: nat)
    ensures SkipEnd(data, e) == if e < |data| && data[e] == 10 then e + 1
                                else if e < |data| && data[e] == 13 then (if e + 1 < |data| && data[e + 1] == 10 then e + 2 else e + 1)
                                else e
  {
  }

  lemma PieceTaken(data: Text, ofs: nat)
    requires ofs <= |data|
    ensures PieceAt(data, ofs, data[ofs..LineEnd(data, ofs, LINE_BYTES)])
  {
    EndsFirst(data, ofs, LINE_BYTES);
    hide LineEnd;
    var line := data[ofs..LineEnd(data, ofs, LINE_BYTES)];
    assert forall i :: 0 <= i < |line| ==> !Ends(line[i]);
  }

  lemma {:induction false} EndsFirst(data: Text, ofs: nat, left: nat)
    requires ofs <= |data|
    ensures var e := LineEnd(data, ofs, left);
      && (forall i :: ofs <= i < e ==> !Ends(data[i])) && (e == ofs + left || e == |data| || Ends(data[e]))
    decreases left
  {
    if left > 0 && ofs < |data| && !Ends(data[ofs]) {
      EndsFirst(data, ofs + 1, left - 1);
    }
  }

  function AddLines(st: Reading, lines: seq<Text>): Reading
    decreases |lines|
  {
    if lines == [] then st else AddLines(AddLine(st, lines[0]), lines[1..])
  }

  lemma {:induction false} ReadingIsAdding(data: Text, ofs: nat, st: Reading)
    ensures ReadLines(data, ofs, st).0 == AddLines(st, LinesIn(data, ofs))
    decreases |data| - ofs
  {
    hide AddLine;
    if ofs < |data| && data[ofs] != NUL {
      var e := LineEnd(data, ofs, LINE_BYTES);
      LineEndMoves(data, ofs);
      ReadStep(data, ofs, st);
      ReadingIsAdding(data, SkipEnd(data, e), AddLine(st, data[ofs..e]));
    }
  }

  /** A blank line or a comment. */
  ghost predicate Ignored(line: Text)
  {
    line == [] || line[0] == '#' as int || line[0] == '!' as int
  }

  /** The line assigns a value to a name. */
  ghost predicate Assigns(line: Text, v: Variable)
  {
    !Ignored(line) && v.name != [] && EQUALS !in v.name && line == v.name + ['=' as int] + v.value
  }

  /** Every line that is not ignored assigns one of the variables, in order. */
  ghost predicate Spelled(lines: seq<Text>, vars: seq<Variable>)
    decreases |lines|
  {
    if lines == [] then vars == []
    else if Ignored(lines[0]) then Spelled(lines[1..], vars)
    else vars != [] && Assigns(lines[0], vars[0]) && Spelled(lines[1..], vars[1..])
  }

  lemma AssignedIs(line: Text, v: Variable)
    ensures Assigns(line, v) <==>
            var p := EqualsAt(line); !Ignored(line) && 0 < p < |line| && v == Variable(line[..p], line[p + 1..])
  {
    hide EqualsAt;
    var p := EqualsAt(line);
    if Assigns(line, v) {
      LineSplits(line, v);
    } else if !Ignored(line) && 0 < p < |line| {
      assert line == line[..p] + [EQUALS] + line[p + 1..];
    }
  }

  lemma LineSplits(line: Text, v: Variable)
    requires line == v.name + [EQUALS] + v.value && EQUALS !in v.name
    ensures EqualsAt(line) == |v.name| < |line| && line[..|v.name|] == v.name && line[|v.name| + 1..] == v.value
  {
    assert line[|v.name|] == EQUALS;
    assert forall j :: 0 <= j < |v.name| ==> line[j] == v.name[j];
    EqualsFound(line, |v.name|);
  }

  lemma AddLineIs(st: Reading, line: Text, v: Variable)
    ensures Ignored(line) ==> AddLine(st, line) == st
    ensures Assigns(line, v) ==> AddLine(st, line) == AddVariable(st, v)
    ensures !Ignored(line) && !(0 < EqualsAt(line) < |line|) ==> AddLine(st, line) == Failed(st)
  {
    AssignedIs(line, v);
    hide AddVariable;
  }

  // ----- values -----

  ghost predicate Named(v: Variable, name: string)
  {
    Lower(v.name) == Ascii(name)
  }

  ghost predicate HexDigits(s: Text, n: nat)
  {
    |s| == n && forall i :: 0 <= i < n ==> 48 <= s[i] <= 57 || 65 <= s[i] <= 70 || 97 <= s[i] <= 102
  }

  function DigitsFrom(s: Text, k: nat): Text
    requires k < |s|
  {
    if s[k] == '+' as int || s[k] == '-' as int then s[k + 1..] else s[k..]
  }

  /** White space, a sign and digits, from `k` on; a negative number only if it is zero. */
  ghost predicate NumeralFrom(s: Text, k: nat)
  {
    && k < |s| && (forall i :: 0 <= i < k ==> s[i] == 32 || 9 <= s[i] <= 13)
    && var digits := DigitsFrom(s, k);
       digits != [] && (forall i :: 0 <= i < |digits| ==> 48 <= digits[i] <= 57)
       && (s[k] == '-' as int ==> forall i :: 0 <= i < |digits| ==> digits[i] == 48)
  }

  /** What a field of that name may be. */
  ghost predicate GoodValue(v: Variable)
  {
    && (Named(v, "id") ==> HexDigits(v.value, 64))
    && (Named(v, "filehash") || Named(v, "bk") ==> HexDigits(v.value, 128))
    && (Named(v, "filesize") || Named(v, "version") || Named(v, "date") ==> exists k :: NumeralFrom(v.value, k))
    && (Named(v, "sender") || Named(v, "recipient") ==> HexDigits(v.value, 64) || Lower(v.value) == Ascii("broadcast"))
    && (Named(v, "name") ==> v.value != [])
    && (Named(v, "crypt") ==> v.value == Ascii("0") || v.value == Ascii("1"))
  }

  lemma {:induction false} SkipSpaceIs(s: Text) returns (k: nat)
    ensures k <= |s| && SkipSpace(s) == s[k..]
    ensures forall i :: 0 <= i < k ==> IsSpace(s[i])
    ensures k < |s| ==> !IsSpace(s[k])
  {
    if s != [] && IsSpace(s[0]) {
      var j := SkipSpaceIs(s[1..]);
      k := j + 1;
      assert s[1..][j..] == s[k..];
      assert forall i :: 1 <= i < k ==> s[i] == s[1..][i - 1];
    } else {
      k := 0;
    }
  }

  lemma {:induction false} ZeroDigits(s: Text)
    requires AllDigits(s)
    ensures DigitsValue(s) == 0 <==> forall i :: 0 <= i < |s| ==> s[i] == 48
  {
    if s != [] {
      var n := |s| - 1;
      ZeroDigits(s[..n]);
      assert s == s[..n] + [s[n]];
    }
  }

  lemma NumberFrom(s: Text, k: nat)
    requires k < |s| && SkipSpace(s) == s[k..] && forall i :: 0 <= i < k ==> IsSpace(s[i])
    ensures Number(s).Some? <==> NumeralFrom(s, k)
  {
    hide SkipSpace, DigitsValue;
    var u := DigitsFrom(s, k);
    if AllDigits(u) {
      ZeroDigits(u);
      NumberOfDigits(s, k, u);
    } else {
      NumberOfOthers(s, k, u);
    }
  }

  lemma NumberOfDigits(s: Text, k: nat, u: Text)
    requires k < |s| && SkipSpace(s) == s[k..] && u == DigitsFrom(s, k) && AllDigits(u)
    ensures Number(s).Some? <==> u != [] && (s[k] == 45 ==> DigitsValue(u) == 0)
  {
    hide SkipSpace, DigitsValue, AllDigits;
    var t := s[k..];
    assert t[0] == s[k] && t[1..] == s[k + 1..];
  }

  lemma NumberOfOthers(s: Text, k: nat, u: Text)
    requires k < |s| && SkipSpace(s) == s[k..] && u == DigitsFrom(s, k) && !AllDigits(u)
    ensures Number(s).None?
  {
    hide SkipSpace, DigitsValue, AllDigits;
    var t := s[k..];
    assert t[0] == s[k] && t[1..] == s[k + 1..];
  }

  lemma NumeralStarts(s: Text, k: nat, j: nat)
    requires NumeralFrom(s, j) && k <= |s| && (forall i :: 0 <= i < k ==> IsSpace(s[i])) && (k < |s| ==> !IsSpace(s[k]))
    ensures j == k
  {
    assert !IsSpace(s[j]) by {
      if s[j] != 43 && s[j] != 45 {
        assert s[j..][0] == s[j];
      }
    }
  }

  /** Exactly what strtoll takes as a whole for a number that is not negative. */
  lemma NumberIff(s: Text)
    ensures Number(s).Some? <==> exists k :: NumeralFrom(s, k)
  {
    var k := SkipSpaceIs(s);
    if k < |s| {
      NumberFrom(s, k);
    } else {
      assert s[k..] == [];
    }
    hide Number, NumeralFrom;
    forall j: nat | NumeralFrom(s, j) ensures j == k {
      NumeralStarts(s, k, j);
    }
    assert NumeralFrom(s, k) ==> exists j :: NumeralFrom(s, j);
    assert NumeralFrom(s, k) ==> k < |s| by { NumeralHas(s, k); }
  }

  lemma NumeralHas(s: Text, k: nat)
    ensures NumeralFrom(s, k) ==> k < |s|
  {
  }

  lemma GoodIffAcceptable(v: Variable)
    ensures GoodValue(v) <==> Acceptable(KindOf(v.name), v.value)
  {
    NumberIff(v.value);
    NamesApart();
    hide Number, NumeralFrom, Lower, Ascii;
  }

  lemma NamesApart()
    ensures Ascii("id") != Ascii("bk") && Ascii("date") != Ascii("name") && Ascii("service") != Ascii("version")
    ensures Ascii("filehash") != Ascii("filesize")
  {
    assert Ascii("id")[0] != Ascii("bk")[0] && Ascii("date")[0] != Ascii("name")[0];
    assert Ascii("service")[0] != Ascii("version")[0] && Ascii("filehash")[4] != Ascii("filesize")[4];
  }

  /** Hexadecimal values are kept in upper case, if they are good; other values stay. */
  lemma KeptAs(v: Variable)
    ensures var hex := Named(v, "id") || Named(v, "filehash") || Named(v, "bk") || Named(v, "sender") || Named(v, "recipient");
      Normal(v) == if hex && GoodValue(v) then Variable(v.name, Upper(v.value)) else v
  {
    GoodIffAcceptable(v);
    NamesApart();
    hide Acceptable, GoodValue, Lower, Ascii;
  }

  /** The text ends behind the first zero byte, or with the last byte. */
  lemma TextEnds(data: Text)
    ensures var end := Read(data).1;
      && (0 in data ==> 0 < end <= |data| && data[end - 1] == 0 && 0 !in data[..end - 1])
      && (0 !in data ==> end == |data|)
  {
    hide ReadLines, Missing;
    LinesEnd(data, 0, Reading([], 0, 0));
    var end := ReadLines(data, 0, Reading([], 0, 0)).1;
    assert forall i :: 0 <= i < end ==> data[..end][i] == data[i];
    assert end < |data| ==> data[end] in data;
  }

  lemma {:induction false} LinesEnd(data: Text, ofs: nat, st: Reading)
    requires ofs <= |data|
    ensures var end := ReadLines(data, ofs, st).1;
      ofs <= end <= |data| && (forall i :: ofs <= i < end ==> data[i] != 0) && (end < |data| ==> data[end] == 0)
    decreases |data| - ofs
  {
    hide AddLine;
    if ofs < |data| && data[ofs] != NUL {
      var e := LineEnd(data, ofs, LINE_BYTES);
      LineEndMoves(data, ofs);
      EndsFirst(data, ofs, LINE_BYTES);
      hide LineEnd;
      LinesEnd(data, SkipEnd(data, e), AddLine(st, data[ofs..e]));
    }
  }

  // ----- whole texts -----

  ghost predicate Field(vars: seq<Variable>, name: string)
  {
    exists i :: 0 <= i < |vars| && Named(vars[i], name)
  }

  /** The fields that every manifest has, and a hash if and only if there is a file. */
  ghost predicate HasFields(vars: seq<Variable>, fileLength: nat)
  {
    && Field(vars, "service") && Field(vars, "id") && Field(vars, "version") && Field(vars, "date")
    && Field(vars, "filesize") && (Field(vars, "filehash") <==> fileLength != 0)
  }

  /** No name comes twice. */
  ghost predicate NewNames(before: seq<Variable>, vars: seq<Variable>)
  {
    forall j :: 0 <= j < |vars| ==>
      (forall i :: 0 <= i < |before| ==> before[i].name != vars[j].name) && (forall i :: 0 <= i < j ==> vars[i].name != vars[j].name)
  }

  ghost predicate AllGood(vars: seq<Variable>)
  {
    forall i :: 0 <= i < |vars| ==> GoodValue(vars[i])
  }

  /** The lines spell up to 256 variables of different names with good values, among them those
      that a manifest has to have. */
  ghost predicate Faultless(lines: seq<Text>, vars: seq<Variable>)
  {
    && Spelled(lines, vars) && NewNames([], vars) && |vars| <= 256 && AllGood(vars)
    && HasFields(vars, LengthOf(vars, 0))
  }

  lemma {:induction false} AddAllErrors(st: Reading, vars: seq<Variable>)
    requires |st.vars| <= 256
    ensures AddAll(st, vars).errors >= st.errors
    ensures AddAll(st, vars).errors == 0 <==>
            st.errors == 0 && NewNames(st.vars, vars) && |st.vars| + |vars| <= 256 && AllGood(vars)
    ensures AddAll(st, vars).errors == 0 ==>
            AddAll(st, vars) == Reading(st.vars + NormalAll(vars), 0, LengthOf(vars, st.fileLength))
    decreases |vars|
  {
    hide *;
    if vars == [] {
      AddAllNone(st);
      NoneWrong(st.vars);
    } else {
      AddedIf(st, vars[0]);
      NewFirst(st.vars, vars);
      AddAllStep(st, vars);
      GoodFirst(vars);
      AddAllErrors(AddVariable(st, vars[0]), vars[1..]);
      NormalFirst(vars);
      assert (st.vars + [Normal(vars[0])]) + NormalAll(vars[1..]) == st.vars + ([Normal(vars[0])] + NormalAll(vars[1..]));
    }
  }

  lemma NoneWrong(before: seq<Variable>)
    ensures NewNames(before, []) && AllGood([])
  {
  }

  lemma GoodFirst(vars: seq<Variable>)
    requires vars != []
    ensures AllGood(vars) <==> GoodValue(vars[0]) && AllGood(vars[1..])
  {
    hide GoodValue;
    assert vars == [vars[0]] + vars[1..];
  }

  lemma AddedIf(st: Reading, v: Variable)
    requires |st.vars| <= 256
    ensures var st' := AddVariable(st, v);
      && |st'.vars| <= 256 && st'.errors >= st.errors
      && var ok := (forall i :: 0 <= i < |st.vars| ==> st.vars[i].name != v.name) && |st.vars| < 256 && GoodValue(v);
         && st'.errors == st.errors + (if ok then 0 else 1)
         && (ok ==> st' == Reading(st.vars + [Normal(v)], st.errors, NextLength(v, st.fileLength)))
  {
    GoodIffAcceptable(v);
    hide GoodValue, Acceptable, KindOf, Number;
  }

  lemma NewFirst(before: seq<Variable>, vars: seq<Variable>)
    requires vars != []
    ensures NewNames(before, vars) <==>
            && (forall i :: 0 <= i < |before| ==> before[i].name != vars[0].name)
            && NewNames(before + [Normal(vars[0])], vars[1..])
  {
    var a := before + [Normal(vars[0])];
    assert a[|before|].name == vars[0].name by { hide KindOf, Acceptable; }
    hide Normal;
    assert vars == [vars[0]] + vars[1..];
    assert forall i :: 0 <= i < |before| ==> a[i] == before[i];
    if NewNames(a, vars[1..]) && forall i :: 0 <= i < |before| ==> before[i].name != vars[0].name {
      forall j | 0 <= j < |vars|
        ensures (forall i :: 0 <= i < |before| ==> before[i].name != vars[j].name) && (forall i :: 0 <= i < j ==> vars[i].name != vars[j].name)
      {
        assert j > 0 ==> vars[j] == vars[1..][j - 1];
      }
    }
  }

  lemma {:induction false} SpelledAdds(st: Reading, lines: seq<Text>, vars: seq<Variable>)
    requires Spelled(lines, vars)
    ensures AddLines(st, lines) == AddAll(st, vars)
    decreases |lines|
  {
    hide AddLine, AddVariable, Ignored, Assigns;
    if lines != [] {
      if Ignored(lines[0]) {
        AddLineIs(st, lines[0], Variable([], []));
        SpelledAdds(st, lines[1..], vars);
      } else {
        AddLineIs(st, lines[0], vars[0]);
        SpelledAdds(AddVariable(st, vars[0]), lines[1..], vars[1..]);
      }
    }
  }

  lemma {:induction false} ErrorsStay(st: Reading, lines: seq<Text>)
    ensures AddLines(st, lines).errors >= st.errors
    decreases |lines|
  {
    if lines != [] {
      hide Normal, NextLength, Acceptable;
      ErrorsStay(AddLine(st, lines[0]), lines[1..]);
    }
  }

  lemma {:induction false} SpelledOrNot(st: Reading, lines: seq<Text>) returns (vars: seq<Variable>)
    ensures Spelled(lines, vars) || AddLines(st, lines).errors > 0
    decreases |lines|
  {
    vars := [];
    if lines != [] {
      var line := lines[0];
      var p := EqualsAt(line);
      var rest := SpelledOrNot(AddLine(st, line), lines[1..]);
      if Ignored(line) {
        vars := rest;
      } else if 0 < p < |line| {
        vars := [Variable(line[..p], line[p + 1..])] + rest;
        AssignedIs(line, vars[0]);
        assert vars[1..] == rest;
      } else {
        AddLineIs(st, line, Variable([], []));
        ErrorsStay(Failed(st), lines[1..]);
      }
      hide AddLine;
    }
  }

  lemma CompleteIff(vars: seq<Variable>, n: nat)
    ensures Complete(vars, n) <==> HasFields(vars, n)
  {
    KindIsName(vars, Service, "service");
    KindIsName(vars, Id, "id");
    KindIsName(vars, Version, "version");
    KindIsName(vars, Date, "date");
    KindIsName(vars, FileSize, "filesize");
    KindIsName(vars, FileHash, "filehash");
    hide HasKind, Field;
  }

  lemma KindIsName(vars: seq<Variable>, kind: Kind, name: string)
    requires (kind, name) in {(Service, "service"), (Id, "id"), (Version, "version"), (Date, "date"), (FileSize, "filesize"),
                              (FileHash, "filehash")}
    ensures HasKind(vars, kind) <==> Field(vars, name)
  {
    NamesApart();
    hide Lower, Ascii;
    assert forall v: Variable :: KindOf(v.name) == kind <==> Named(v, name);
    hide KindOf, Named;
  }

  /** For all bytes: a manifest is read without an error if and only if its lines are faultless,
      and then it is read as the variables that they spell. */
  lemma ReadsWithoutErrorIff(data: Text)
    ensures Read(data).0.errors == 0 <==> exists vars :: Faultless(LinesIn(data, 0), vars)
    ensures forall vars :: Faultless(LinesIn(data, 0), vars) ==> Read(data).0 == Reading(NormalAll(vars), 0, LengthOf(vars, 0))
  {
    hide Spelled, LinesIn, AddLines, AddAll, ReadLines, NormalAll, LengthOf, Missing, Complete, HasFields, NewNames, AllGood;
    var lines, none := LinesIn(data, 0), Reading([], 0, 0);
    ReadingIsAdding(data, 0, none);
    forall vars | Spelled(lines, vars)
      ensures Read(data).0.errors == 0 <==> Faultless(lines, vars)
      ensures Faultless(lines, vars) ==> Read(data).0 == Reading(NormalAll(vars), 0, LengthOf(vars, 0))
    {
      SpelledAdds(none, lines, vars);
      AddAllErrors(none, vars);
      assert [] + NormalAll(vars) == NormalAll(vars);
      MissingNone(vars, LengthOf(vars, 0));
      CompleteIff(vars, LengthOf(vars, 0));
    }
    var vars := SpelledOrNot(none, lines);
  }
}
