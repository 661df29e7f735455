/** The life of a manifest on values: setting variables, finalising, signing, verifying. */
module ManifestSpec {
  import opened Wrappers
  import opened Bytes
  import opened ManifestText
  import SignatureCache

  // ----- numbers and hexadecimal -----

  function Decimal(n: nat): (s: Text)
    ensures s != [] && AllDigits(s)
  {
    if n < 10 then [48 + n] else Decimal(n / 10) + [48 + n % 10]
  }

  lemma {:induction false} DecimalValue(n: nat)
    ensures DigitsValue(Decimal(n)) == n
  {
    var s := Decimal(n);
    if n >= 10 {
      DecimalValue(n / 10);
      assert s[..|s| - 1] == Decimal(n / 10);
    } else {
      assert s[..0] == [];
    }
  }

  /** Numbers read back as far as they are 64-bit numbers, and as the largest one otherwise. */
  lemma NumberOfDecimal(n: nat)
    ensures Number(Decimal(n)) == Some(if n <= 0x7fff_ffff_ffff_ffff then n else 0x7fff_ffff_ffff_ffff)
  {
    DecimalValue(n);
    assert IsDigit(Decimal(n)[0]);
  }

  lemma {:induction false} DecimalLength(n: nat, k: nat)
    requires n < Ten(k) && k > 0
    ensures |Decimal(n)| <= k
  {
    if n >= 10 {
      DecimalLength(n / 10, k - 1);
    }
  }

  function Ten(k: nat): nat
  {
    if k == 0 then 1 else 10 * Ten(k - 1)
  }

  function HexDigit(n: int): byte
    requires 0 <= n < 16
  {
    if n < 10 then 48 + n else 55 + n
  }

  function HexDigitValue(b: byte): int
  {
    if IsDigit(b) then b as int - 48 else if 65 <= b <= 70 then b as int - 55 else if 97 <= b <= 102 then b as int - 87 else 16
  }

  function Hex(s: seq<byte>): (t: Text)
    ensures |t| == 2 * |s|
  {
    if s == [] then [] else [HexDigit(s[0] / 16), HexDigit(s[0] % 16)] + Hex(s[1..])
  }

  /** fromhexstr. */
  function FromHex(t: Text, n: nat): Option<seq<byte>>
  {
    if n == 0 then if t == [] then Some([]) else None
    else if |t| < 2 || HexDigitValue(t[0]) > 15 || HexDigitValue(t[1]) > 15 then None
    else
      var rest := FromHex(t[2..], n - 1);
      if rest.None? then None else Some([HexDigitValue(t[0]) * 16 + HexDigitValue(t[1])] + rest.value)
  }

  lemma HexDigitReads(n: int)
    requires 0 <= n < 16
    ensures HexDigitValue(HexDigit(n)) == n && IsHexDigit(HexDigit(n))
    ensures UpperByte(HexDigit(n)) == HexDigit(n) && !Ends(HexDigit(n))
  {
  }

  lemma {:induction false} HexDecodes(s: seq<byte>)
    ensures FromHex(Hex(s), |s|) == Some(s)
  {
    if s != [] {
      HexDigitReads(s[0] / 16);
      HexDigitReads(s[0] % 16);
      hide HexDigit, HexDigitValue;
      HexDecodes(s[1..]);
      assert Hex(s)[2..] == Hex(s[1..]);
      assert s == [s[0]] + s[1..];
    }
  }

  lemma {:induction false} HexIsPlain(s: seq<byte>)
    ensures forall i :: 0 <= i < |Hex(s)| ==>
              IsHexDigit(Hex(s)[i]) && UpperByte(Hex(s)[i]) == Hex(s)[i] && !Ends(Hex(s)[i])
  {
    hide HexDigit, IsHexDigit, UpperByte, Ends;
    if s != [] {
      HexDigitReads(s[0] / 16);
      HexDigitReads(s[0] % 16);
      HexIsPlain(s[1..]);
    }
  }

  lemma HexReadsBack(s: seq<byte>)
    ensures FromHex(Hex(s), |s|) == Some(s)
    ensures Upper(Hex(s)) == Hex(s) && IsHex(Hex(s), 2 * |s|) && Printable(Hex(s))
  {
    hide Hex, FromHex, IsHexDigit, UpperByte, Ends;
    HexDecodes(s);
    HexIsPlain(s);
  }

  lemma HexDigitIff(b: byte, n: int)
    requires 0 <= n < 16
    ensures HexDigitValue(b) == n <==> UpperByte(b) == HexDigit(n)
    ensures HexDigitValue(b) >= 0
  {
  }

  lemma UpperOfTail(t: Text)
    requires |t| >= 2
    ensures Upper(t) == [UpperByte(t[0]), UpperByte(t[1])] + Upper(t[2..])
  {
  }

  /** A text is the hexadecimal form of some bytes if and only if it is what is written for
      them, in upper or lower case. */
  lemma {:induction false} FromHexIff(t: Text, s: seq<byte>)
    ensures FromHex(t, |s|) == Some(s) <==> Upper(t) == Hex(s)
  {
    if s != [] && |t| >= 2 {
      hide HexDigit, HexDigitValue, UpperByte, Upper;
      FromHexIff(t[2..], s[1..]);
      HexDigitIff(t[0], s[0] / 16);
      HexDigitIff(t[1], s[0] % 16);
      UpperOfTail(t);
      assert s == [s[0]] + s[1..];
      HexParts(s, t);
    }
  }

  lemma HexParts(s: seq<byte>, t: Text)
    requires s != [] && |t| >= 2
    ensures Upper(t) == Hex(s) <==>
            UpperByte(t[0]) == HexDigit(s[0] / 16) && UpperByte(t[1]) == HexDigit(s[0] % 16) && Upper(t[2..]) == Hex(s[1..])
  {
    hide HexDigit, UpperByte;
    UpperOfTail(t);
    hide Upper;
    var a, b := [UpperByte(t[0]), UpperByte(t[1])], [HexDigit(s[0] / 16), HexDigit(s[0] % 16)];
    var c, d := Upper(t[2..]), Hex(s[1..]);
    assert (a + c)[..2] == a && (b + d)[..2] == b && (a + c)[2..] == c && (b + d)[2..] == d;
  }

  // ----- setting and deleting -----

  function Set(vars: seq<Variable>, v: Variable): seq<Variable>
  {
    var i := IndexOf(vars, v.name);
    if i < |vars| then vars[i := v] else if |vars| < MAX_VARS then vars + [v] else vars
  }

  function Del(vars: seq<Variable>, name: Text): seq<Variable>
  {
    var i := IndexOf(vars, name);
    if i < |vars| then vars[..i] + vars[i + 1..] else vars
  }

  /** Printable, acceptable and without two names that differ only in case. */
  ghost predicate Tidy(vars: seq<Variable>)
  {
    AllClean(vars) && Distinct(vars) && AllAcceptable(vars)
  }

  ghost predicate Fit(v: Variable)
  {
    Clean(v) && Acceptable(KindOf(v.name), v.value)
  }

  /** The name is spelled as it is in the list. */
  ghost predicate SpelledAlike(vars: seq<Variable>, name: Text)
  {
    forall x :: x in vars && Lower(x.name) == Lower(name) ==> x.name == name
  }

  lemma SetKeepsTidy(vars: seq<Variable>, v: Variable)
    requires Tidy(vars) && Fit(v) && SpelledAlike(vars, v.name)
    ensures Tidy(Set(vars, v))
  {
    hide Clean, Acceptable, KindOf, Lower;
  }

  lemma SetSets(vars: seq<Variable>, v: Variable)
    requires Distinct(vars) && |vars| < MAX_VARS
    ensures |vars| <= |Set(vars, v)| <= |vars| + 1
    ensures forall x :: x in Set(vars, v) <==> x == v || (x in vars && x.name != v.name)
  {
    hide Lower;
    var i := IndexOf(vars, v.name);
    var s := Set(vars, v);
    if i < |vars| {
      assert s[i] == v;
      forall x | x in vars && x.name != v.name ensures x in s {
        var j :| 0 <= j < |vars| && vars[j] == x;
        assert s[j] == x;
      }
      forall j | 0 <= j < |s| && j != i ensures s[j].name != v.name {
        assert Lower(vars[j].name) != Lower(vars[i].name);
      }
    } else {
      assert s[|vars|] == v;
    }
  }

  /** A variable is set if and only if there is one of that name or there are fewer than 256. */
  lemma SetIff(vars: seq<Variable>, v: Variable)
    ensures v in Set(vars, v) <==> (exists x :: x in vars && x.name == v.name) || |vars| < 256
    ensures v !in Set(vars, v) ==> Set(vars, v) == vars
  {
    var i, s := IndexOf(vars, v.name), Set(vars, v);
    if i < |vars| {
      assert s[i] == v && vars[i] in vars;
    } else if |vars| < 256 {
      assert s[|vars|] == v;
    }
  }

  lemma DelKeepsTidy(vars: seq<Variable>, name: Text)
    requires Tidy(vars)
    ensures Tidy(Del(vars, name))
    ensures forall x :: x in Del(vars, name) <==> x in vars && x.name != name
  {
    hide Clean, Acceptable, KindOf, Lower;
    var i := IndexOf(vars, name);
    var s := Del(vars, name);
    if i < |vars| {
      assert vars == vars[..i] + [vars[i]] + vars[i + 1..];
      assert forall j :: 0 <= j < |s| ==> s[j] == vars[if j < i then j else j + 1];
      forall j | 0 <= j < |vars| && j != i ensures vars[j].name != name {
        assert Lower(vars[j].name) != Lower(vars[i].name);
      }
    }
  }

  // ----- finalising -----

  function IdName(): Text { Ascii("id") }
  function FileSizeName(): Text { Ascii("filesize") }
  function FileHashName(): Text { Ascii("filehash") }
  function VersionName(): Text { Ascii("version") }

  ghost predicate PlainName(name: Text)
  {
    0 < |name| <= 8 && forall i :: 0 <= i < |name| ==> 97 <= name[i] <= 122
  }

  lemma PlainNames()
    ensures PlainName(IdName()) && KindOf(IdName()).Id?
    ensures PlainName(FileSizeName()) && KindOf(FileSizeName()).FileSize?
    ensures PlainName(FileHashName()) && KindOf(FileHashName()).FileHash?
    ensures PlainName(VersionName()) && KindOf(VersionName()).Version?
  {
    PlainLower(IdName());
    PlainLower(FileSizeName());
    PlainLower(FileHashName());
    PlainLower(VersionName());
    assert Ascii("filesize")[4] != Ascii("filehash")[4];
    assert Ascii("version")[0] != Ascii("service")[0];
  }

  lemma PlainLower(name: Text)
    requires PlainName(name)
    ensures Lower(name) == name
  {
  }

  /** The name of a field is known by its kind. */
  lemma KindNames(name: Text)
    ensures KindOf(name).FileSize? <==> Lower(name) == FileSizeName()
    ensures KindOf(name).FileHash? <==> Lower(name) == FileHashName()
  {
    assert Ascii("filesize")[4] != Ascii("filehash")[4];
  }

  lemma PlainFit(name: Text, value: Text)
    requires PlainName(name) && Printable(value) && |value| <= 128 && Acceptable(KindOf(name), value)
    ensures Fit(Variable(name, value))
  {
  }

  lemma DecimalFit(name: Text, n: nat)
    requires PlainName(name) && n <= LARGEST && (KindOf(name).FileSize? || KindOf(name).Version?)
    ensures Fit(Variable(name, Decimal(n)))
  {
    NumberOfDecimal(n);
    assert Ten(4) == 10000 && Ten(8) == 100000000 && Ten(12) == 1000000000000 && Ten(16) == 10000000000000000
        && Ten(19) == 10000000000000000000;
    DecimalLength(n, 19);
    hide KindOf, Number;
    assert Printable(Decimal(n));
    PlainFit(name, Decimal(n));
  }

  lemma HashFit(hash: seq<byte>)
    requires |hash| == 64
    ensures Fit(Variable(FileHashName(), Hex(hash)))
  {
    PlainNames();
    HexReadsBack(hash);
    hide KindOf;
    PlainFit(FileHashName(), Hex(hash));
  }

  /** rhizome_manifest_finalise, up to the variables: the size and the hash of the file, and
      a version if there is none. */
  function Finalised(vars: seq<Variable>, fileLength: nat, hash: seq<byte>, now: nat): seq<Variable>
  {
    var v1 := Set(vars, Variable(FileSizeName(), Decimal(fileLength)));
    var v2 := if fileLength != 0 then Set(v1, Variable(FileHashName(), Hex(hash))) else Del(v1, FileHashName());
    if Has(v2, VersionName()) then v2 else Set(v2, Variable(VersionName(), Decimal(now)))
  }

  ghost predicate Spelled(name: Text)
  {
    name == FileSizeName() || name == FileHashName() || name == VersionName()
  }

  /** Tidy, and the fields that finalising sets are spelled in lower case. */
  ghost predicate Ready(vars: seq<Variable>)
  {
    Tidy(vars) && forall x, name :: x in vars && Spelled(name) && Lower(x.name) == Lower(name) ==> x.name == name
  }

  lemma SetReady(vars: seq<Variable>, v: Variable)
    requires Ready(vars) && Fit(v) && Spelled(v.name) && |vars| < MAX_VARS
    ensures Ready(Set(vars, v)) && |Set(vars, v)| <= |vars| + 1
    ensures forall x :: x in Set(vars, v) <==> x == v || (x in vars && x.name != v.name)
  {
    PlainNames();
    PlainLower(FileSizeName());
    PlainLower(FileHashName());
    PlainLower(VersionName());
    hide Clean, Acceptable, KindOf, Lower, Set, FileSizeName, FileHashName, VersionName;
    SetSets(vars, v);
    SetKeepsTidy(vars, v);
  }

  lemma DelReady(vars: seq<Variable>, name: Text)
    requires Ready(vars)
    ensures Ready(Del(vars, name)) && |Del(vars, name)| <= |vars|
    ensures forall x :: x in Del(vars, name) <==> x in vars && x.name != name
  {
    DelKeepsTidy(vars, name);
    assert |Del(vars, name)| <= |vars|;
    hide Clean, Acceptable, KindOf, Lower, Del, FileSizeName, FileHashName, VersionName;
  }

  lemma HasIsMember(vars: seq<Variable>, name: Text)
    ensures Has(vars, name) <==> exists x :: x in vars && x.name == name
  {
  }

  /** What the caller has put together before finalising: tidy variables with room for
      three more, the service, the date, and the id. */
  ghost predicate Prepared(vars: seq<Variable>, public: seq<byte>)
  {
    && Ready(vars) && |vars| + 3 <= MAX_VARS && |public| == 32
    && HasKind(vars, Service) && HasKind(vars, Date) && Variable(IdName(), Hex(public)) in vars
  }

  /** The members of the final list. */
  lemma FinalMembers(vars: seq<Variable>, fileLength: nat, hash: seq<byte>, now: nat)
    requires Ready(vars) && |vars| + 3 <= MAX_VARS && fileLength <= LARGEST && now <= LARGEST && |hash| == 64
    ensures var f := Finalised(vars, fileLength, hash, now);
            && Ready(f) && |f| <= MAX_VARS && Has(f, VersionName())
            && Variable(FileSizeName(), Decimal(fileLength)) in f
            && (fileLength != 0 ==> Variable(FileHashName(), Hex(hash)) in f)
            && (fileLength == 0 ==> !Has(f, FileHashName()))
            && (forall x :: x in vars && !Spelled(x.name) ==> x in f)
  {
    hide KindOf, Acceptable, Decimal, Hex, Set, Del, Ready, Has, FileSizeName, FileHashName, VersionName, Fit;
    PlainNames();
    Unlike();
    DecimalFit(FileSizeName(), fileLength);
    DecimalFit(VersionName(), now);
    HashFit(hash);
    var size := Variable(FileSizeName(), Decimal(fileLength));
    var v1 := Set(vars, size);
    SetReady(vars, size);
    var v2 := if fileLength != 0 then Set(v1, Variable(FileHashName(), Hex(hash))) else Del(v1, FileHashName());
    if fileLength != 0 {
      SetReady(v1, Variable(FileHashName(), Hex(hash)));
    } else {
      DelReady(v1, FileHashName());
    }
    HasIsMember(v2, FileHashName());
    HasIsMember(v2, VersionName());
    var f := Finalised(vars, fileLength, hash, now);
    HasIsMember(f, FileHashName());
    HasIsMember(f, VersionName());
    if !Has(v2, VersionName()) {
      SetReady(v2, Variable(VersionName(), Decimal(now)));
      assert Variable(VersionName(), Decimal(now)) in f;
    }
  }

  lemma Unlike()
    ensures FileSizeName() != FileHashName() && VersionName() != FileSizeName() && VersionName() != FileHashName()
  {
    assert Ascii("filesize")[4] != Ascii("filehash")[4];
  }

  lemma {:induction false} LengthUnset(vars: seq<Variable>, before: nat)
    requires forall x :: x in vars ==> !KindOf(x.name).FileSize?
    ensures LengthOf(vars, before) == before
    decreases |vars|
  {
    hide KindOf, Number;
    if vars != [] {
      assert vars[0] in vars;
      LengthUnset(vars[1..], before);
    }
  }

  lemma OnlySize(vars: seq<Variable>)
    requires Distinct(vars) && vars != []
    ensures Distinct(vars[1..])
    ensures KindOf(vars[0].name).FileSize? ==> forall x :: x in vars[1..] ==> !KindOf(x.name).FileSize?
  {
  }

  lemma {:induction false} LengthIs(vars: seq<Variable>, before: nat, v: Variable, n: nat)
    requires Distinct(vars) && v in vars && KindOf(v.name).FileSize? && Number(v.value) == Some(n)
    ensures LengthOf(vars, before) == n
    decreases |vars|
  {
    hide KindOf, Number, Lower, Distinct;
    OnlySize(vars);
    assert vars == [vars[0]] + vars[1..];
    if vars[0] == v {
      LengthUnset(vars[1..], n);
    } else {
      LengthIs(vars[1..], before, v, n);
    }
  }

  lemma KindOfMember(vars: seq<Variable>, v: Variable, kind: Kind)
    requires v in vars && KindOf(v.name) == kind
    ensures HasKind(vars, kind)
  {
  }

  /** What was there stays, and what has to be there has been added. */
  lemma FinalKinds(vars: seq<Variable>, public: seq<byte>, f: seq<Variable>, fileLength: nat)
    requires Prepared(vars, public) && Has(f, VersionName()) && Variable(FileSizeName(), Decimal(fileLength)) in f
    requires forall x :: x in vars && !Spelled(x.name) ==> x in f
    ensures HasKind(f, Service) && HasKind(f, Date) && HasKind(f, Id) && HasKind(f, Version) && HasKind(f, FileSize)
    ensures Variable(IdName(), Hex(public)) in f
  {
    PlainNames();
    hide KindOf, Ready, Has, Decimal, Hex, FileSizeName, FileHashName, VersionName, IdName;
    var service :| service in vars && KindOf(service.name) == Service;
    KindOfMember(f, service, Service);
    var date :| date in vars && KindOf(date.name) == Date;
    KindOfMember(f, date, Date);
    KindOfMember(f, Variable(IdName(), Hex(public)), Id);
    HasIsMember(f, VersionName());
    var version :| version in f && version.name == VersionName();
    KindOfMember(f, version, Version);
    KindOfMember(f, Variable(FileSizeName(), Decimal(fileLength)), FileSize);
  }

  /** Finalised variables can be printed and read without an error, and say the size of
      the file. */
  lemma FinalisedIsSound(vars: seq<Variable>, public: seq<byte>, fileLength: nat, hash: seq<byte>, now: nat)
    requires Prepared(vars, public) && fileLength <= LARGEST && now <= LARGEST && |hash| == 64
    ensures var f := Finalised(vars, fileLength, hash, now);
            Sound(f) && LengthOf(f, 0) == fileLength && Variable(IdName(), Hex(public)) in f
  {
    hide KindOf, Number, Finalised, LengthOf, AllClean, AllAcceptable, Distinct, Decimal, Hex, HasKind, Has,
         FileSizeName, FileHashName, VersionName, IdName;
    var f := Finalised(vars, fileLength, hash, now);
    FinalMembers(vars, fileLength, hash, now);
    PlainNames();
    NumberOfDecimal(fileLength);
    LengthIs(f, 0, Variable(FileSizeName(), Decimal(fileLength)), fileLength);
    FinalKinds(vars, public, f, fileLength);
    HashIffFile(f, fileLength, hash);
  }

  lemma HashIffFile(f: seq<Variable>, fileLength: nat, hash: seq<byte>)
    requires Ready(f)
    requires (fileLength != 0 ==> Variable(FileHashName(), Hex(hash)) in f) && (fileLength == 0 ==> !Has(f, FileHashName()))
    ensures HasKind(f, FileHash) <==> fileLength != 0
  {
    PlainNames();
    PlainLower(FileHashName());
    HasIsMember(f, FileHashName());
    hide KindOf, Lower, Has, Hex, FileHashName;
    if fileLength != 0 {
      KindOfMember(f, Variable(FileHashName(), Hex(hash)), FileHash);
    }
    forall x | x in f && KindOf(x.name) == FileHash ensures x.name == FileHashName() {
      KindNames(x.name);
      assert Spelled(FileHashName());
    }
  }

  // ----- signing and verifying -----

  /** Hashing, signing and opening. */
  datatype Signer = Signer(
    hash: Text -> seq<byte>,
    sign: (seq<byte>, seq<byte>) -> seq<byte>,
    open: SignatureCache.Opener)

  /** A signed hash has the hash in its middle, and opens with the public key. */
  ghost predicate Matching(c: Signer, secret: seq<byte>, public: seq<byte>)
  {
    && |public| == 32 && (forall x :: |c.hash(x)| == 64)
    && forall h :: |h| == 64 ==>
         var s := c.sign(h, secret); |s| == 128 && s[32..96] == h && c.open(s, public)
  }

  const BLOCK_BYTES := 0x61

  /** A signature block: its length, the signature without the hash, and the public key. */
  function Block(s: seq<byte>, public: seq<byte>): (b: seq<byte>)
    requires |s| == 128 && |public| == 32
    ensures |b| == BLOCK_BYTES
  {
    [BLOCK_BYTES] + s[..32] + s[96..] + public
  }

  /** The text of a manifest and its own signature, if they fit. */
  function Signed(c: Signer, vars: seq<Variable>, secret: seq<byte>, public: seq<byte>): Option<Text>
    requires Matching(c, secret, public)
  {
    var text := Pack(vars);
    if text.None? then None
    else
      var s := c.sign(c.hash(text.value), secret);
      if BLOCK_BYTES + |text.value| > MAX_BYTES then None else Some(text.value + Block(s, public))
  }

  /** Exactly when a manifest can be signed. */
  lemma SignedFits(c: Signer, vars: seq<Variable>, secret: seq<byte>, public: seq<byte>)
    requires Matching(c, secret, public)
    ensures Signed(c, vars, secret, public).Some? <==> |Print(vars)| + 1 + 97 <= 8192
  {
  }

  /** Bytes `from` to `to`, where nothing is found beyond the end. */
  function Slice(data: Text, from: nat, to: nat): (s: Text)
    requires from <= to
    ensures |s| == to - from && forall i :: 0 <= i < to - from ==> s[i] == At(data, from + i)
  {
    seq<byte>(to - from, i requires 0 <= i < to - from => At(data, from + i))
  }

  lemma SliceIs(data: Text, from: nat, to: nat)
    requires from <= to <= |data|
    ensures Slice(data, from, to) == data[from..to]
  {
  }

  /** Behind the end mark of the text. */
  function TextEnd(data: Text, ofs: nat): (e: nat)
    requires ofs <= |data|
    ensures ofs < e <= |data| + 1
    decreases |data| - ofs
  {
    if ofs < |data| && data[ofs] != NUL then TextEnd(data, ofs + 1) else ofs + 1
  }

  datatype Proof = Proof(signatories: seq<seq<byte>>, errors: nat)

  /** The signature blocks from `ofs` on; the first bad one ends it. */
  function Blocks(c: Signer, data: Text, hash: seq<byte>, ofs: nat, p: Proof): Proof
    decreases |data| - ofs
  {
    if ofs >= |data| then p
    else
      var len: nat := data[ofs];
      if len == 0 then p.(errors := p.errors + 1)
      else if |p.signatories| >= MAX_VARS then Blocks(c, data, hash, ofs + 2 * len, p.(errors := p.errors + 1))
      else if len != BLOCK_BYTES then p.(errors := p.errors + 1)
      else
        var sig := Slice(data, ofs + 1, ofs + BLOCK_BYTES);
        if SignatureCache.Verdict(c.open, hash, sig) != 0 then p.(errors := p.errors + 1)
        else Blocks(c, data, hash, ofs + len, p.(signatories := p.signatories + [sig[64..]]))
  }

  datatype Outcome = Outcome(errors: nat, selfSigned: bool, finalised: bool)

  /** rhizome_manifest_verify, with the variables and errors of reading. */
  function Verify(c: Signer, data: Text, vars: seq<Variable>, errors: nat): Outcome
  {
    var end := TextEnd(data, 0);
    var p := Blocks(c, data, c.hash(Slice(data, 0, end)), end, Proof([], errors));
    var unsigned := Count(p.signatories == []);
    var i := IndexOf(vars, IdName());
    var id := if i < |vars| then FromHex(vars[i].value, 32) else None;
    var own := id.Some? && p.signatories != [] && p.signatories[0] == id.value;
    var total := p.errors + unsigned + Count(!own);
    Outcome(total, own, total == 0)
  }

  /** A signature block at `at`: its length, and a signature of 64 bytes and a public key with
      which the hash, put between the halves of the signature, opens. */
  ghost predicate Opens(c: Signer, data: Text, hash: seq<byte>, at: nat)
  {
    && At(data, at) == 0x61
    && c.open(Slice(data, at + 1, at + 33) + hash + Slice(data, at + 33, at + 65), Slice(data, at + 65, at + 97))
  }

  /** The id variable is the public key of the block at `at`. */
  ghost predicate NamesKey(data: Text, vars: seq<Variable>, at: nat)
  {
    exists i :: 0 <= i < |vars| && vars[i].name == IdName() && (forall j :: 0 <= j < i ==> vars[j].name != IdName())
                && FromHex(vars[i].value, 32) == Some(Slice(data, at + 65, at + 97))
  }

  ghost predicate AllOpen(c: Signer, data: Text, hash: seq<byte>, from: nat)
  {
    forall k: nat :: from + 97 * k < |data| ==> Opens(c, data, hash, from + 97 * k)
  }

  /** For all bytes and all variables, the manifest is self-signed if and only if the first
      block behind the text opens and names the id of the manifest; and it verifies without
      an error if and only if in addition every other block opens and there are no more of
      them than there is room for. */
  lemma VerifiesIff(c: Signer, data: Text, vars: seq<Variable>, errors: nat)
    ensures var end := TextEnd(data, 0);
      var hash, r := c.hash(Slice(data, 0, end)), Verify(c, data, vars, errors);
      && (r.selfSigned <==> end < |data| && Opens(c, data, hash, end) && NamesKey(data, vars, end))
      && (r.errors == 0 <==>
            errors == 0 && r.selfSigned && AllOpen(c, data, hash, end) && |data| - end <= 97 * MAX_VARS)
      && (r.finalised <==> r.errors == 0)
  {
    var end := TextEnd(data, 0);
    var hash := c.hash(Slice(data, 0, end));
    BlocksOpenIff(c, data, hash, end, Proof([], errors));
    FirstBlock(c, data, hash, end, errors);
    NamesKeyIff(data, vars, end);
    hide Blocks, AllOpen, FromHex, IdName, Opens, TextEnd, Slice, NamesKey, IndexOf;
  }

  lemma NamesKeyIff(data: Text, vars: seq<Variable>, at: nat)
    ensures var i := IndexOf(vars, IdName());
      NamesKey(data, vars, at) <==> i < |vars| && FromHex(vars[i].value, 32) == Some(Slice(data, at + 65, at + 97))
  {
    hide FromHex, IdName, IndexOf, Slice;
  }

  lemma SigParts(data: Text, at: nat)
    ensures var sig := Slice(data, at + 1, at + 97);
      sig[..32] == Slice(data, at + 1, at + 33) && sig[32..64] == Slice(data, at + 33, at + 65) && sig[64..] == Slice(data, at + 65, at + 97)
  {
  }

  lemma OpensIff(c: Signer, data: Text, hash: seq<byte>, at: nat)
    requires at < |data|
    ensures Opens(c, data, hash, at) <==>
            data[at] == BLOCK_BYTES && SignatureCache.Verdict(c.open, hash, Slice(data, at + 1, at + BLOCK_BYTES)) == 0
  {
    SigParts(data, at);
    hide Slice;
  }

  /** The first signatory is the one of the first block. */
  lemma FirstBlock(c: Signer, data: Text, hash: seq<byte>, ofs: nat, errors: nat)
    ensures var p := Blocks(c, data, hash, ofs, Proof([], errors));
      && (p.signatories != [] <==> ofs < |data| && Opens(c, data, hash, ofs))
      && (p.signatories != [] ==> p.signatories[0] == Slice(data, ofs + 65, ofs + 97))
  {
    if ofs < |data| {
      OpensIff(c, data, hash, ofs);
      SigParts(data, ofs);
      hide Opens, Slice, SignatureCache.Verdict;
      if Opens(c, data, hash, ofs) {
        var key := Slice(data, ofs + 1, ofs + 97)[64..];
        assert [] + [key] == [key];
        BlocksGrow(c, data, hash, ofs + 97, Proof([key], errors));
      }
    }
  }

  /** Signatories and errors are only added. */
  lemma {:induction false} BlocksGrow(c: Signer, data: Text, hash: seq<byte>, ofs: nat, p: Proof)
    ensures var p' := Blocks(c, data, hash, ofs, p);
      p.signatories <= p'.signatories && p.errors <= p'.errors
    decreases |data| - ofs
  {
    hide SignatureCache.Verdict;
    if ofs < |data| && data[ofs] != 0 {
      var len: nat := data[ofs];
      if |p.signatories| >= MAX_VARS {
        BlocksGrow(c, data, hash, ofs + 2 * len, p.(errors := p.errors + 1));
      } else if len == BLOCK_BYTES {
        var sig := Slice(data, ofs + 1, ofs + BLOCK_BYTES);
        BlocksGrow(c, data, hash, ofs + len, p.(signatories := p.signatories + [sig[64..]]));
      }
    }
  }

  lemma {:induction false} BlocksOpenIff(c: Signer, data: Text, hash: seq<byte>, ofs: nat, p: Proof)
    requires |p.signatories| <= MAX_VARS
    ensures Blocks(c, data, hash, ofs, p).errors == 0 <==>
            p.errors == 0 && AllOpen(c, data, hash, ofs) && |data| - ofs <= 97 * (MAX_VARS - |p.signatories|)
    decreases |data| - ofs
  {
    if ofs < |data| {
      OpensIff(c, data, hash, ofs);
      OpenFirst(c, data, hash, ofs);
      hide Opens, Slice, SignatureCache.Verdict, AllOpen;
      var len: nat := data[ofs];
      if len != 0 && |p.signatories| >= MAX_VARS {
        BlocksGrow(c, data, hash, ofs + 2 * len, p.(errors := p.errors + 1));
      } else if len == BLOCK_BYTES && Opens(c, data, hash, ofs) {
        var sig := Slice(data, ofs + 1, ofs + BLOCK_BYTES);
        BlocksOpenIff(c, data, hash, ofs + len, p.(signatories := p.signatories + [sig[64..]]));
      }
    }
  }

  lemma OpenFirst(c: Signer, data: Text, hash: seq<byte>, from: nat)
    requires from < |data|
    ensures AllOpen(c, data, hash, from) <==> Opens(c, data, hash, from) && AllOpen(c, data, hash, from + 97)
  {
    hide Opens;
    if AllOpen(c, data, hash, from) {
      assert Opens(c, data, hash, from + 97 * 0);
      forall k: nat | from + 97 + 97 * k < |data| ensures Opens(c, data, hash, from + 97 + 97 * k) {
        assert from + 97 * (k + 1) == from + 97 + 97 * k;
        assert Opens(c, data, hash, from + 97 * (k + 1));
      }
    } else {
      var k: nat :| from + 97 * k < |data| && !Opens(c, data, hash, from + 97 * k);
      if k > 0 {
        assert from + 97 + 97 * (k - 1) == from + 97 * k;
      }
    }
  }

  lemma {:induction false} TextEndIs(data: Text, ofs: nat, n: nat)
    requires ofs <= n < |data| && data[n] == NUL && forall i :: ofs <= i < n ==> data[i] != NUL
    ensures TextEnd(data, ofs) == n + 1
    decreases n - ofs
  {
    if ofs < n {
      TextEndIs(data, ofs + 1, n);
    }
  }

  lemma {:induction false} PrintHasNoNul(vars: seq<Variable>)
    requires AllClean(vars)
    ensures forall i :: 0 <= i < |Print(vars)| ==> Print(vars)[i] != NUL
  {
    hide Clean, Line;
    if vars != [] {
      LineIsPlain(vars[0]);
      PrintHasNoNul(vars[1..]);
    }
  }

  /** A genuine block is accepted, and names its public key. */
  lemma OwnBlock(c: Signer, secret: seq<byte>, public: seq<byte>, hash: seq<byte>, data: Text, ofs: nat)
    requires Matching(c, secret, public) && |hash| == 64 && ofs + BLOCK_BYTES == |data|
    requires data[ofs..] == Block(c.sign(hash, secret), public)
    ensures Blocks(c, data, hash, ofs, Proof([], 0)) == Proof([public], 0)
  {
    var s := c.sign(hash, secret);
    var sig := Slice(data, ofs + 1, ofs + BLOCK_BYTES);
    SliceIs(data, ofs + 1, ofs + BLOCK_BYTES);
    assert data[ofs] == data[ofs..][0] == BLOCK_BYTES;
    assert sig == data[ofs..][1..] == s[..32] + s[96..] + public;
    assert sig[..32] == s[..32] && sig[32..64] == s[96..] && sig[64..] == public;
    assert s == s[..32] + s[32..96] + s[96..];
    assert sig[..32] + hash + sig[32..64] == s;
    hide Matching;
    assert SignatureCache.Verdict(c.open, hash, sig) == 0;
    assert [] + [public] == [public];
    assert Blocks(c, data, hash, ofs + BLOCK_BYTES, Proof([public], 0)) == Proof([public], 0);
  }

  /** Where names are distinct, a variable is found under its name. */
  lemma NameIsFound(f: seq<Variable>, j: nat)
    requires Distinct(f) && j < |f|
    ensures IndexOf(NormalAll(f), f[j].name) == j
  {
    hide Lower, IndexOf, NormalAll, Normal;
    var i := IndexOf(NormalAll(f), f[j].name);
    assert i <= j;
    assert f[i].name == f[j].name;
  }

  lemma IdIsFound(f: seq<Variable>, public: seq<byte>)
    requires Distinct(f) && Variable(IdName(), Hex(public)) in f && |public| == 32
    ensures var n := NormalAll(f); var i := IndexOf(n, IdName());
            i < |n| && FromHex(n[i].value, 32) == Some(public)
  {
    hide KindOf, Lower, Upper, Hex, FromHex, IdName, Acceptable, IndexOf, NormalAll, Distinct;
    PlainNames();
    HexReadsBack(public);
    IdAcceptable(public);
    var v := Variable(IdName(), Hex(public));
    var j :| 0 <= j < |f| && f[j] == v;
    assert Normal(v) == v;
    NameIsFound(f, j);
  }

  lemma IdAcceptable(public: seq<byte>)
    requires |public| == 32
    ensures Acceptable(Id, Hex(public))
  {
    HexReadsBack(public);
  }

  /** A signed manifest verifies as its own. */
  lemma SignedVerifies(c: Signer, f: seq<Variable>, secret: seq<byte>, public: seq<byte>)
    requires Matching(c, secret, public) && AllClean(f) && Distinct(f) && Variable(IdName(), Hex(public)) in f
    requires Signed(c, f, secret, public).Some?
    ensures Verify(c, Signed(c, f, secret, public).value, NormalAll(f), 0) == Outcome(0, true, true)
  {
    hide Print, AllClean, Distinct, Hex, FromHex, NormalAll, Block, IndexOf, IdName, Blocks;
    var text := Print(f) + [NUL];
    var data := Signed(c, f, secret, public).value;
    PrintHasNoNul(f);
    IdIsFound(f, public);
    var n := |text|;
    assert data == text + Block(c.sign(c.hash(text), secret), public);
    TextEndIs(data, 0, n - 1);
    SliceIs(data, 0, n);
    assert data[0..n] == text && data[n..] == Block(c.sign(c.hash(text), secret), public);
    OwnBlock(c, secret, public, c.hash(text), data, n);
  }

  /** A manifest that has been prepared, bound to an id and finalised reads back to the same
      variables, in order, and verifies as self-signed without an error. */
  lemma ManifestRoundTrip(c: Signer, vars: seq<Variable>, secret: seq<byte>, public: seq<byte>,
                          fileLength: nat, hash: seq<byte>, now: nat)
    requires Prepared(vars, public) && fileLength <= LARGEST && now <= LARGEST && |hash| == 64
    requires Matching(c, secret, public) && Signed(c, Finalised(vars, fileLength, hash, now), secret, public).Some?
    ensures var f := Finalised(vars, fileLength, hash, now);
            var data := Signed(c, f, secret, public).value;
            && Read(data) == (Reading(NormalAll(f), 0, fileLength), |Print(f)| + 1)
            && Verify(c, data, NormalAll(f), 0) == Outcome(0, true, true)
  {
    var f := Finalised(vars, fileLength, hash, now);
    hide Finalised, Print, Read, Verify, NormalAll, LengthOf, AllClean, AllAcceptable, Complete, Distinct, Prepared,
         Block, Hex, IdName;
    FinalisedIsSound(vars, public, fileLength, hash, now);
    var data := Signed(c, f, secret, public).value;
    var block := Block(c.sign(c.hash(Print(f) + [NUL]), secret), public);
    assert data == Print(f) + [NUL] + block;
    TextReadsBack(f, block);
    SignedVerifies(c, f, secret, public);
  }
}
