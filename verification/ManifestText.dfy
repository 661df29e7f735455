/** The text of a manifest: printing variables as lines, and reading them back. */
module ManifestText {
  import opened Wrappers
  import opened Bytes

  type Text = seq<byte>

  const NUL := 0
  const NEWLINE := 10
  const RETURN := 13
  const EQUALS := 61
  const HASH := 35
  const BANG := 33

  const MAX_BYTES := 8192
  const MAX_VARS := 256
  const LINE_BYTES := 1023

  datatype Variable = Variable(name: Text, value: Text)

  // ----- lookup -----

  /** The index of the variable of that name, or their number. */
  function IndexOf(vars: seq<Variable>, name: Text): (i: nat)
    ensures i <= |vars| && (i < |vars| ==> vars[i].name == name)
    ensures forall j :: 0 <= j < i ==> vars[j].name != name
  {
    if vars == [] then 0
    else if vars[0].name == name then 0
    else
      var i := IndexOf(vars[1..], name);
      assert forall j :: 1 <= j < i + 1 ==> vars[j] == vars[1..][j - 1];
      i + 1
  }

  predicate Has(vars: seq<Variable>, name: Text)
  {
    IndexOf(vars, name) < |vars|
  }

  // ----- printing -----

  function Line(v: Variable): Text
  {
    v.name + [EQUALS] + v.value
  }

  function Print(vars: seq<Variable>): Text
  {
    if vars == [] then [] else Line(vars[0]) + [NEWLINE] + Print(vars[1..])
  }

  lemma {:induction false} PrintAppend(vars: seq<Variable>, v: Variable)
    ensures Print(vars + [v]) == Print(vars) + Line(v) + [NEWLINE]
  {
    if vars == [] {
      assert vars + [v] == [v] && [v][1..] == [];
      assert Print([v]) == Line(v) + [NEWLINE] + Print([]);
    } else {
      assert (vars + [v])[1..] == vars[1..] + [v];
      PrintAppend(vars[1..], v);
    }
  }

  /** The text with its end mark, if it fits. */
  function Pack(vars: seq<Variable>): Option<Text>
  {
    if vars != [] && |Print(vars)| + 1 > MAX_BYTES then None else Some(Print(vars) + [NUL])
  }

  /** It fits if and only if text and mark have at most 8192 bytes. */
  lemma PackIff(vars: seq<Variable>)
    ensures Pack(vars) == if |Print(vars)| < 8192 then Some(Print(vars) + [0]) else None
  {
  }

  // ----- reading one line -----

  predicate Ends(b: byte)
  {
    b == NUL || b == NEWLINE || b == RETURN
  }

  /** What is found at an offset: nothing beyond the end. */
  function At(data: Text, i: nat): byte
  {
    if i < |data| then data[i] else NUL
  }

  /** The end of the line at `ofs`, at most `left` bytes further on. */
  function LineEnd(data: Text, ofs: nat, left: nat): (e: nat)
    requires ofs <= |data|
    ensures ofs <= e <= |data| && e <= ofs + left
    decreases left
  {
    if left == 0 || ofs == |data| || Ends(data[ofs]) then ofs else LineEnd(data, ofs + 1, left - 1)
  }

  /** Behind the end of the line. */
  function SkipEnd(data: Text, e: nat): (n: nat)
    ensures e <= n <= e + 2
  {
    var e1 := if At(data, e) == RETURN then e + 1 else e;
    if At(data, e1) == NEWLINE then e1 + 1 else e1
  }

  lemma {:induction false} LineEndIs(data: Text, ofs: nat, n: nat, left: nat)
    requires ofs + n < |data| && n <= left && Ends(data[ofs + n])
    requires forall i :: ofs <= i < ofs + n ==> !Ends(data[i])
    ensures LineEnd(data, ofs, left) == ofs + n
    decreases n
  {
    if n > 0 {
      LineEndIs(data, ofs + 1, n - 1, left - 1);
    }
  }

  lemma LineEndMoves(data: Text, ofs: nat)
    requires ofs < |data| && data[ofs] != NUL
    ensures SkipEnd(data, LineEnd(data, ofs, LINE_BYTES)) > ofs
  {
  }

  // ----- fields -----

  function Ascii(s: string): (t: Text)
    ensures |t| == |s|
  {
    seq<byte>(|s|, i requires 0 <= i < |s| => if s[i] as int < 0x100 then s[i] as int else 0)
  }

  function LowerByte(b: byte): byte
  {
    if 65 <= b <= 90 then b + 32 else b
  }

  function UpperByte(b: byte): byte
  {
    if 97 <= b <= 122 then b - 32 else b
  }

  function Lower(s: Text): (t: Text)
    ensures |t| == |s|
  {
    seq<byte>(|s|, i requires 0 <= i < |s| => LowerByte(s[i]))
  }

  function Upper(s: Text): (t: Text)
    ensures |t| == |s| && forall i :: 0 <= i < |s| ==> t[i] == UpperByte(s[i])
  {
    seq<byte>(|s|, i requires 0 <= i < |s| => UpperByte(s[i]))
  }

  /** The same byte, or the same letter in the other case. */
  ghost predicate SameLetter(a: byte, b: byte)
  {
    a == b || (65 <= a <= 90 && b == a + 32) || (65 <= b <= 90 && a == b + 32)
  }

  /** Texts agree in lower case if and only if they differ in the case of letters only; neither
      form changes anything else, and each has letters of its own case only. */
  lemma CaseOnly(a: Text, b: Text)
    ensures Lower(a) == Lower(b) <==> |a| == |b| && forall i :: 0 <= i < |a| ==> SameLetter(a[i], b[i])
    ensures forall i :: 0 <= i < |a| ==> SameLetter(Lower(a)[i], a[i]) && !(65 <= Lower(a)[i] <= 90)
    ensures forall i :: 0 <= i < |a| ==> SameLetter(Upper(a)[i], a[i]) && !(97 <= Upper(a)[i] <= 122)
  {
    if |a| == |b| {
      assert forall i :: 0 <= i < |a| ==> (Lower(a)[i] == Lower(b)[i] <==> SameLetter(a[i], b[i]));
    }
  }

  predicate IsDigit(b: byte)
  {
    48 <= b <= 57
  }

  predicate IsHexDigit(b: byte)
  {
    IsDigit(b) || 65 <= b <= 70 || 97 <= b <= 102
  }

  predicate IsHex(s: Text, n: nat)
  {
    |s| == n && forall i :: 0 <= i < n ==> IsHexDigit(s[i])
  }

  predicate IsSpace(b: byte)
  {
    b == 32 || 9 <= b <= 13
  }

  function SkipSpace(s: Text): Text
  {
    if s != [] && IsSpace(s[0]) then SkipSpace(s[1..]) else s
  }

  predicate AllDigits(s: Text)
  {
    forall i :: 0 <= i < |s| ==> IsDigit(s[i])
  }

  function DigitsValue(s: Text): nat
    requires AllDigits(s)
  {
    if s == [] then 0 else 10 * DigitsValue(s[..|s| - 1]) + (s[|s| - 1] as int - 48)
  }

  const LARGEST := 0x7fff_ffff_ffff_ffff

  /** strtoll, where it takes the whole string and the result is not negative. */
  function Number(s: Text): Option<nat>
  {
    var t := SkipSpace(s);
    var signed := t != [] && (t[0] == 43 || t[0] == 45);
    var u := if signed then t[1..] else t;
    if u == [] || !AllDigits(u) then None
    else
      var v := DigitsValue(u);
      if signed && t[0] == 45 && v != 0 then None
      else Some(if v > LARGEST then LARGEST else v)
  }

  datatype Kind = Id | FileHash | BundleKey | FileSize | Service | Version | Date | Person | Name | Crypt | Other

  function KindOf(name: Text): Kind
  {
    var n := Lower(name);
    if n == Ascii("id") then Id
    else if n == Ascii("filehash") then FileHash
    else if n == Ascii("bk") then BundleKey
    else if n == Ascii("filesize") then FileSize
    else if n == Ascii("service") then Service
    else if n == Ascii("version") then Version
    else if n == Ascii("date") then Date
    else if n == Ascii("sender") || n == Ascii("recipient") then Person
    else if n == Ascii("name") then Name
    else if n == Ascii("crypt") then Crypt
    else Other
  }

  predicate Acceptable(kind: Kind, value: Text)
  {
    match kind
    case Id => IsHex(value, 64)
    case FileHash => IsHex(value, 128)
    case BundleKey => IsHex(value, 128)
    case FileSize => Number(value).Some?
    case Version => Number(value).Some?
    case Date => Number(value).Some?
    case Person => IsHex(value, 64) || Lower(value) == Ascii("broadcast")
    case Name => value != []
    case Crypt => value == Ascii("0") || value == Ascii("1")
    case Service => true
    case Other => true
  }

  /** Hexadecimal values are kept in upper case. */
  function Normal(v: Variable): Variable
  {
    var kind := KindOf(v.name);
    if (kind.Id? || kind.FileHash? || kind.BundleKey? || kind.Person?) && Acceptable(kind, v.value)
    then v.(value := Upper(v.value)) else v
  }

  // ----- reading all lines -----

  datatype Reading = Reading(vars: seq<Variable>, errors: nat, fileLength: nat)

  /** Position of the first equals sign, or the length. */
  function EqualsAt(line: Text): (i: nat)
    ensures i <= |line| && (i < |line| ==> line[i] == EQUALS)
    ensures forall j :: 0 <= j < i ==> line[j] != EQUALS
  {
    if line == [] then 0
    else if line[0] == EQUALS then 0
    else
      var i := EqualsAt(line[1..]);
      assert forall j :: 1 <= j < i + 1 ==> line[j] == line[1..][j - 1];
      i + 1
  }

  function Failed(st: Reading): Reading
  {
    st.(errors := st.errors + 1)
  }

  /** The file size after one variable. */
  function NextLength(v: Variable, before: nat): nat
  {
    if KindOf(v.name).FileSize? && Number(v.value).Some? then Number(v.value).value else before
  }

  function AddVariable(st: Reading, v: Variable): Reading
  {
    if Has(st.vars, v.name) || |st.vars| >= MAX_VARS then Failed(st)
    else
      var kind := KindOf(v.name);
      Reading(st.vars + [Normal(v)], st.errors + (if Acceptable(kind, v.value) then 0 else 1),
              NextLength(v, st.fileLength))
  }

  function AddLine(st: Reading, line: Text): Reading
  {
    if line == [] || line[0] == HASH || line[0] == BANG then st
    else
      var p := EqualsAt(line);
      if p == 0 || p == |line| then Failed(st)
      else AddVariable(st, Variable(line[..p], line[p + 1..]))
  }

  function ReadLines(data: Text, ofs: nat, st: Reading): (Reading, nat)
    decreases |data| - ofs
  {
    if ofs < |data| && data[ofs] != NUL then
      var e := LineEnd(data, ofs, LINE_BYTES);
      LineEndMoves(data, ofs);
      ReadLines(data, SkipEnd(data, e), AddLine(st, data[ofs..e]))
    else (st, ofs)
  }

  predicate HasKind(vars: seq<Variable>, kind: Kind)
  {
    exists v :: v in vars && KindOf(v.name) == kind
  }

  function Count(b: bool): nat
  {
    if b then 1 else 0
  }

  /** How many required fields are missing, or superfluous. */
  function Missing(vars: seq<Variable>, fileLength: nat): nat
  {
    Count(!HasKind(vars, Service)) + Count(!HasKind(vars, Id)) + Count(!HasKind(vars, Version)) +
    Count(!HasKind(vars, Date)) + Count(!HasKind(vars, FileSize)) +
    Count(!HasKind(vars, FileHash) && fileLength != 0) + Count(HasKind(vars, FileHash) && fileLength == 0)
  }

  /** The variables, the errors, and where the text ends. */
  function Read(data: Text): (Reading, nat)
  {
    var (st, ofs) := ReadLines(data, 0, Reading([], 0, 0));
    (st.(errors := st.errors + Missing(st.vars, st.fileLength)), if ofs < |data| then ofs + 1 else ofs)
  }

  // ----- reading what has been printed -----

  ghost predicate Printable(s: Text)
  {
    forall i :: 0 <= i < |s| ==> !Ends(s[i])
  }

  /** A variable whose line can be told from other lines, and taken apart. */
  ghost predicate Plain(v: Variable)
  {
    && v.name != [] && v.name[0] != HASH && v.name[0] != BANG
    && (forall i :: 0 <= i < |v.name| ==> v.name[i] != EQUALS)
    && Printable(v.name) && Printable(v.value)
  }

  predicate Short(v: Variable)
  {
    |Line(v)| <= LINE_BYTES
  }

  /** A variable that survives being printed as a line. */
  ghost predicate Clean(v: Variable)
  {
    Plain(v) && Short(v)
  }

  ghost predicate AllClean(vars: seq<Variable>)
  {
    forall i :: 0 <= i < |vars| ==> Clean(vars[i])
  }

  function AddAll(st: Reading, vars: seq<Variable>): Reading
    decreases |vars|
  {
    if vars == [] then st else AddAll(AddVariable(st, vars[0]), vars[1..])
  }

  lemma {:induction false} EqualsFound(line: Text, p: nat)
    requires p < |line| && line[p] == EQUALS && forall j :: 0 <= j < p ==> line[j] != EQUALS
    ensures EqualsAt(line) == p
  {
  }

  lemma LineAdds(st: Reading, v: Variable)
    requires Clean(v)
    ensures AddLine(st, Line(v)) == AddVariable(st, v)
  {
    var line, p := Line(v), |v.name|;
    EqualsFound(line, p);
    assert line[..p] == v.name && line[p + 1..] == v.value;
    hide AddVariable;
  }

  lemma ReadStep(data: Text, ofs: nat, st: Reading)
    requires ofs < |data| && data[ofs] != NUL
    ensures var e := LineEnd(data, ofs, LINE_BYTES);
            ReadLines(data, ofs, st) == ReadLines(data, SkipEnd(data, e), AddLine(st, data[ofs..e]))
  {
  }

  lemma LineIsPlain(v: Variable)
    requires Clean(v)
    ensures Line(v) != [] && forall i :: 0 <= i < |Line(v)| ==> !Ends(Line(v)[i])
  {
  }

  lemma LineHere(data: Text, ofs: nat, line: Text, tail: Text)
    requires ofs <= |data| && data[ofs..] == line + [NEWLINE] + tail
    ensures ofs + |line| < |data| && data[ofs + |line|] == NEWLINE && data[ofs..ofs + |line|] == line
    ensures forall i :: ofs <= i < ofs + |line| ==> data[i] == line[i - ofs]
  {
  }

  /** One printed line is read as one line. */
  lemma LineReads(data: Text, ofs: nat, v: Variable, tail: Text, st: Reading)
    requires Clean(v) && ofs <= |data| && data[ofs..] == Line(v) + [NEWLINE] + tail
    ensures ReadLines(data, ofs, st) == ReadLines(data, ofs + |Line(v)| + 1, AddVariable(st, v))
  {
    hide *;
    LineIsPlain(v);
    LineHere(data, ofs, Line(v), tail);
    LineAdds(st, v);
    LineFits(v);
    PlainLineReads(data, ofs, Line(v), st);
  }

  lemma LineFits(v: Variable)
    requires Clean(v)
    ensures |Line(v)| <= LINE_BYTES
  {
  }

  lemma PlainLineReads(data: Text, ofs: nat, line: Text, st: Reading)
    requires 0 < |line| <= LINE_BYTES && ofs + |line| < |data| && data[ofs + |line|] == NEWLINE
    requires data[ofs..ofs + |line|] == line && forall i :: 0 <= i < |line| ==> !Ends(line[i])
    ensures ReadLines(data, ofs, st) == ReadLines(data, ofs + |line| + 1, AddLine(st, line))
  {
    hide ReadLines, AddLine, LineEnd;
    var n := |line|;
    forall i | ofs <= i < ofs + n ensures !Ends(data[i]) {
      assert data[i] == data[ofs..ofs + n][i - ofs];
    }
    LineEndIs(data, ofs, n, LINE_BYTES);
    ReadStep(data, ofs, st);
  }

  lemma {:induction false} PrintedReads(data: Text, ofs: nat, vars: seq<Variable>, rest: Text, st: Reading)
    requires AllClean(vars) && ofs <= |data| && data[ofs..] == Print(vars) + [NUL] + rest
    ensures ReadLines(data, ofs, st) == (AddAll(st, vars), ofs + |Print(vars)|)
    decreases |vars|
  {
    hide ReadLines, AddVariable, Line, Clean;
    if vars == [] {
      assert data[ofs] == data[ofs..][0] == NUL;
      NothingToRead(data, ofs, st);
    } else {
      var v := vars[0];
      var n := |Line(v)| + 1;
      var tail := Print(vars[1..]) + [NUL] + rest;
      assert data[ofs..] == Line(v) + [NEWLINE] + tail;
      LineReads(data, ofs, v, tail, st);
      assert data[ofs + n..] == data[ofs..][n..];
      PrintedReads(data, ofs + n, vars[1..], rest, AddVariable(st, v));
    }
  }

  lemma NothingToRead(data: Text, ofs: nat, st: Reading)
    requires ofs < |data| && data[ofs] == NUL
    ensures ReadLines(data, ofs, st) == (st, ofs)
  {
  }

  // ----- the whole text -----

  function NormalAll(vars: seq<Variable>): (r: seq<Variable>)
    ensures |r| == |vars| && forall i :: 0 <= i < |vars| ==> r[i] == Normal(vars[i]) && r[i].name == vars[i].name
  {
    seq(|vars|, i requires 0 <= i < |vars| => Normal(vars[i]))
  }

  /** No two names are the same, not even in different case. */
  ghost predicate Distinct(vars: seq<Variable>)
  {
    forall i, j :: 0 <= i < j < |vars| ==> Lower(vars[i].name) != Lower(vars[j].name)
  }

  ghost predicate AllAcceptable(vars: seq<Variable>)
  {
    forall i :: 0 <= i < |vars| ==> Acceptable(KindOf(vars[i].name), vars[i].value)
  }

  /** The file size that reading the variables leaves. */
  function LengthOf(vars: seq<Variable>, before: nat): nat
    decreases |vars|
  {
    if vars == [] then before else LengthOf(vars[1..], NextLength(vars[0], before))
  }

  lemma NewName(vars: seq<Variable>, name: Text)
    requires forall i :: 0 <= i < |vars| ==> Lower(vars[i].name) != Lower(name)
    ensures !Has(vars, name)
  {
  }

  lemma FirstFits(a: seq<Variable>, vars: seq<Variable>)
    requires Distinct(a + vars) && vars != []
    ensures !Has(a, vars[0].name) && Distinct((a + [Normal(vars[0])]) + vars[1..])
  {
    hide Lower, Normal, Has;
    assert (a + vars)[|a|] == vars[0];
    assert forall i :: 0 <= i < |a| ==> (a + vars)[i] == a[i];
    NewName(a, vars[0].name);
    assert vars == [vars[0]] + vars[1..];
    DistinctMoves(a, vars[0], vars[1..]);
  }

  lemma {:induction false} AddAllAdds(st: Reading, vars: seq<Variable>)
    requires AllAcceptable(vars) && |st.vars| + |vars| <= MAX_VARS
    requires Distinct(st.vars + vars)
    ensures AddAll(st, vars) == Reading(st.vars + NormalAll(vars), st.errors, LengthOf(vars, st.fileLength))
    decreases |vars|
  {
    hide *;
    if vars == [] {
      AddAllNone(st);
    } else {
      FirstFits(st.vars, vars);
      AcceptableTail(vars);
      AddOne(st, vars[0]);
      AddAllAdds(AddVariable(st, vars[0]), vars[1..]);
      NormalFirst(vars);
      AddAllStep(st, vars);
      var a, b, c := st.vars, [Normal(vars[0])], NormalAll(vars[1..]);
      assert (a + b) + c == a + (b + c);
    }
  }

  lemma AddAllNone(st: Reading)
    ensures AddAll(st, []) == Reading(st.vars + NormalAll([]), st.errors, LengthOf([], st.fileLength))
  {
  }

  lemma AcceptableTail(vars: seq<Variable>)
    requires AllAcceptable(vars) && vars != []
    ensures AllAcceptable(vars[1..]) && Acceptable(KindOf(vars[0].name), vars[0].value)
  {
  }

  lemma AddAllStep(st: Reading, vars: seq<Variable>)
    requires vars != []
    ensures AddAll(st, vars) == AddAll(AddVariable(st, vars[0]), vars[1..])
    ensures LengthOf(vars, st.fileLength) == LengthOf(vars[1..], NextLength(vars[0], st.fileLength))
  {
  }

  lemma AddOne(st: Reading, v: Variable)
    requires !Has(st.vars, v.name) && |st.vars| < MAX_VARS && Acceptable(KindOf(v.name), v.value)
    ensures AddVariable(st, v) ==
            Reading(st.vars + [Normal(v)], st.errors, NextLength(v, st.fileLength))
  {
  }

  lemma NormalFirst(vars: seq<Variable>)
    requires vars != []
    ensures NormalAll(vars) == [Normal(vars[0])] + NormalAll(vars[1..])
  {
    hide Normal;
  }

  lemma DistinctMoves(a: seq<Variable>, v: Variable, b: seq<Variable>)
    requires Distinct(a + ([v] + b))
    ensures Distinct((a + [Normal(v)]) + b)
  {
    hide Lower, KindOf, Acceptable;
    var s, t := a + ([v] + b), (a + [Normal(v)]) + b;
    assert forall i :: 0 <= i < |t| ==> t[i].name == s[i].name;
  }

  ghost predicate Complete(vars: seq<Variable>, fileLength: nat)
  {
    && HasKind(vars, Service) && HasKind(vars, Id) && HasKind(vars, Version) && HasKind(vars, Date)
    && HasKind(vars, FileSize) && (HasKind(vars, FileHash) <==> fileLength != 0)
  }

  lemma NormalKeepsKinds(vars: seq<Variable>, kind: Kind)
    ensures HasKind(NormalAll(vars), kind) <==> HasKind(vars, kind)
  {
  }

  lemma MissingNone(vars: seq<Variable>, fileLength: nat)
    ensures Missing(NormalAll(vars), fileLength) == 0 <==> Complete(vars, fileLength)
  {
    NormalKeepsKinds(vars, Service);
    NormalKeepsKinds(vars, Id);
    NormalKeepsKinds(vars, Version);
    NormalKeepsKinds(vars, Date);
    NormalKeepsKinds(vars, FileSize);
    NormalKeepsKinds(vars, FileHash);
    hide HasKind, NormalAll;
  }

  /** Variables that can be printed and read without an error. */
  ghost predicate Sound(vars: seq<Variable>)
  {
    && AllClean(vars) && Distinct(vars) && |vars| <= MAX_VARS && AllAcceptable(vars)
    && Complete(vars, LengthOf(vars, 0))
  }

  lemma LinesReadBack(vars: seq<Variable>, rest: Text)
    requires Sound(vars)
    ensures ReadLines(Print(vars) + [NUL] + rest, 0, Reading([], 0, 0)) ==
            (Reading(NormalAll(vars), 0, LengthOf(vars, 0)), |Print(vars)|)
  {
    hide AllClean, AllAcceptable, Complete, LengthOf, Print, NormalAll, ReadLines, AddAll, Distinct;
    var data := Print(vars) + [NUL] + rest;
    var empty := Reading([], 0, 0);
    assert data[0..] == data && [] + vars == vars;
    PrintedReads(data, 0, vars, rest, empty);
    AddAllAdds(empty, vars);
    assert [] + NormalAll(vars) == NormalAll(vars);
  }

  /** Variables that have been printed read back, in order, hexadecimal values in upper
      case, without an error. */
  lemma TextReadsBack(vars: seq<Variable>, rest: Text)
    requires Sound(vars)
    ensures Read(Print(vars) + [NUL] + rest) ==
            (Reading(NormalAll(vars), 0, LengthOf(vars, 0)), |Print(vars)| + 1)
  {
    hide AllClean, AllAcceptable, Complete, LengthOf, Print, NormalAll, ReadLines, Distinct, Missing;
    LinesReadBack(vars, rest);
    MissingNone(vars, LengthOf(vars, 0));
  }

  // ----- long lines -----

  ghost predicate AllShort(vars: seq<Variable>)
  {
    forall i :: 0 <= i < |vars| ==> Short(vars[i])
  }

  /** Sound but for the length of lines. */
  ghost predicate SoundInParts(vars: seq<Variable>)
  {
    && (forall i :: 0 <= i < |vars| ==> Plain(vars[i]))
    && Distinct(vars) && |vars| <= MAX_VARS && AllAcceptable(vars) && Complete(vars, LengthOf(vars, 0))
  }

  lemma NormalLength(v: Variable)
    ensures Short(Normal(v)) <==> Short(v)
  {
  }

  /** Whatever is read, no variable is longer than a line may be. */
  lemma AddLineShort(st: Reading, line: Text)
    requires AllShort(st.vars) && |line| <= LINE_BYTES
    ensures AllShort(AddLine(st, line).vars)
  {
    hide Normal, Acceptable, KindOf, NextLength, Has;
    var p := EqualsAt(line);
    if 0 < p < |line| {
      NormalLength(Variable(line[..p], line[p + 1..]));
    }
  }

  lemma {:induction false} ReadLinesShort(data: Text, ofs: nat, st: Reading)
    requires AllShort(st.vars)
    ensures AllShort(ReadLines(data, ofs, st).0.vars)
    decreases |data| - ofs
  {
    hide AllShort, AddLine;
    if ofs < |data| && data[ofs] != NUL {
      var e := LineEnd(data, ofs, LINE_BYTES);
      LineEndMoves(data, ofs);
      AddLineShort(st, data[ofs..e]);
      ReadLinesShort(data, SkipEnd(data, e), AddLine(st, data[ofs..e]));
    }
  }

  /** So variables that have been printed read back if and only if none makes a line of more
      than 1023 bytes. */
  lemma ReadsBackIffShort(vars: seq<Variable>, rest: Text)
    requires SoundInParts(vars)
    ensures Read(Print(vars) + [NUL] + rest).0.vars == NormalAll(vars) <==> AllShort(vars)
  {
    hide ReadLines, Print, Short, Plain, Complete, Missing, LengthOf, Distinct, AllAcceptable, Normal;
    var data := Print(vars) + [NUL] + rest;
    if AllShort(vars) {
      assert forall i :: 0 <= i < |vars| ==> Clean(vars[i]);
      TextReadsBack(vars, rest);
    } else {
      var i :| 0 <= i < |vars| && !Short(vars[i]);
      ReadLinesShort(data, 0, Reading([], 0, 0));
      NormalLength(vars[i]);
      assert !Short(NormalAll(vars)[i]);
    }
  }
}
