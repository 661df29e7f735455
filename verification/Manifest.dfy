/** rhizome_bundle.c: a manifest whose variables, text and signatures change in place. */
module Manifest {
  import opened Wrappers
  import opened Bytes
  import opened ManifestText
  import opened ManifestSpec
  import SignatureCache

  class Manifest {
    var vars: seq<Variable>
    /** The used part of manifestdata. */
    var data: Text
    var errors: nat
    var fileLength: nat
    var signatories: seq<seq<byte>>
    var selfSigned: bool
    var finalised: bool

    constructor ()
      ensures vars == [] && data == [] && errors == 0 && fileLength == 0 && signatories == []
      ensures !selfSigned && !finalised
    {
      vars, data, errors, fileLength, signatories := [], [], 0, 0, [];
      selfSigned, finalised := false, false;
    }

    /** The index of a variable, or their number. */
    method Find(name: Text) returns (i: nat)
      ensures i == IndexOf(vars, name)
    {
      hide IndexOf;
      i := 0;
      while i < |vars| && vars[i].name != name
        invariant i <= |vars| && forall j :: 0 <= j < i ==> vars[j].name != name
      {
        i := i + 1;
      }
    }

    /** rhizome_manifest_get */
    method Get(name: Text) returns (value: Option<Text>)
      ensures value.Some? <==> Has(vars, name)
      ensures value.Some? ==> value.value == vars[IndexOf(vars, name)].value
    {
      var i := Find(name);
      value := if i < |vars| then Some(vars[i].value) else None;
    }

    /** rhizome_manifest_set */
    method SetVariable(name: Text, value: Text) returns (ok: bool)
      modifies this`vars, this`finalised
      ensures vars == Set(old(vars), Variable(name, value))
      ensures ok <==> Variable(name, value) in vars && (Has(old(vars), name) || |old(vars)| < MAX_VARS)
      ensures finalised == (old(finalised) && !ok)
    {
      var i := Find(name);
      if i < |vars| {
        vars, finalised := vars[i := Variable(name, value)], false;
        assert vars[i] in vars;
        return true;
      }
      if |vars| >= MAX_VARS {
        return false;
      }
      vars, finalised := vars + [Variable(name, value)], false;
      return true;
    }

    /** rhizome_manifest_del: close the gap by moving up what follows. */
    method DelVariable(name: Text) returns (found: bool)
      modifies this`vars, this`finalised
      ensures vars == Del(old(vars), name)
      ensures found <==> Has(old(vars), name)
      ensures finalised == (old(finalised) && !found)
    {
      var i := Find(name);
      found := i < |vars|;
      if found {
        var kept := vars;
        var j := i;
        while j + 1 < |kept|
          invariant i <= j < |kept| == |vars|
          invariant forall k :: 0 <= k < j ==> kept[k] == vars[if k < i then k else k + 1]
          invariant forall k :: j <= k < |vars| ==> kept[k] == vars[k]
        {
          kept := kept[j := kept[j + 1]];
          j := j + 1;
        }
        assert kept[..|vars| - 1] == vars[..i] + vars[i + 1..];
        vars, finalised := kept[..|vars| - 1], false;
      }
    }

    /** rhizome_manifest_pack_variables */
    method PackVariables() returns (ok: bool)
      modifies this`data
      ensures ok <==> Pack(vars).Some?
      ensures ok ==> data == Pack(vars).value
    {
      hide Line;
      var text: Text := [];
      assert vars[..0] == [];
      for i := 0 to |vars|
        invariant text == Print(vars[..i]) && (i > 0 ==> |text| + 1 <= MAX_BYTES)
      {
        PrintNext(vars, i);
        PrintLonger(vars, i + 1);
        if |text| + |Line(vars[i])| + 2 > MAX_BYTES {
          return false;
        }
        text := text + Line(vars[i]) + [NEWLINE];
      }
      assert vars[..|vars|] == vars;
      data := text + [NUL];
      ok := true;
    }

    lemma PrintNext(vars: seq<Variable>, i: nat)
      requires i < |vars|
      ensures Print(vars[..i + 1]) == Print(vars[..i]) + Line(vars[i]) + [NEWLINE]
    {
      assert vars[..i + 1] == vars[..i] + [vars[i]];
      PrintAppend(vars[..i], vars[i]);
    }

    lemma {:induction false} PrintLonger(vars: seq<Variable>, i: nat)
      requires i <= |vars|
      ensures |Print(vars[..i])| <= |Print(vars)|
      decreases |vars| - i
    {
      if i == |vars| {
        assert vars[..i] == vars;
      } else {
        PrintNext(vars, i);
        PrintLonger(vars, i + 1);
      }
    }

    /** rhizome_manifest_selfsign */
    method SelfSign(c: Signer, secret: seq<byte>, public: seq<byte>, ghost packed: seq<Variable>) returns (ok: bool)
      requires Matching(c, secret, public) && Pack(packed) == Some(data)
      modifies this`data
      ensures ok <==> Signed(c, packed, secret, public).Some?
      ensures data == if ok then Signed(c, packed, secret, public).value else old(data)
    {
      hide Pack;
      var s := c.sign(c.hash(data), secret);
      var block := [BLOCK_BYTES] + s[0..32] + s[96..128] + public;
      assert block == Block(s, public);
      ok := |block| + |data| <= MAX_BYTES;
      if ok {
        data := data + block;
      }
    }

    /** rhizome_manifest_finalise, for a file of that length and hash */
    method Finalise(c: Signer, secret: seq<byte>, public: seq<byte>, length: nat, hash: seq<byte>, now: nat)
      returns (ok: bool)
      requires Matching(c, secret, public)
      modifies this
      ensures vars == Finalised(old(vars), length, hash, now) && fileLength == length
      ensures ok <==> Signed(c, vars, secret, public).Some?
      ensures ok ==> data == Signed(c, vars, secret, public).value && finalised
    {
      hide Set, Del, Decimal, Hex, Pack, Has, IndexOf;
      fileLength := length;
      var done := SetVariable(FileSizeName(), Decimal(length));
      if length != 0 {
        done := SetVariable(FileHashName(), Hex(hash));
      } else {
        done := DelVariable(FileHashName());
      }
      var version := Get(VersionName());
      if version.None? {
        done := SetVariable(VersionName(), Decimal(now));
      }
      ok := PackVariables();
      if ok {
        ok := SelfSign(c, secret, public, vars);
      }
      if ok {
        finalised := true;
      }
    }
  
    // ----- reading -----

    /** Copy a line of at most 1023 bytes. */
    method CopyLine(ofs: nat) returns (line: Text, end: nat)
      requires ofs <= |data|
      ensures end == LineEnd(data, ofs, LINE_BYTES) && line == data[ofs..end]
    {
      hide LineEnd, Ends;
      var limit := if ofs + LINE_BYTES > |data| then |data| else ofs + LINE_BYTES;
      line, end := [], ofs;
      while end < limit && !Ends(data[end])
        invariant ofs <= end <= limit && line == data[ofs..end]
        invariant LineEnd(data, ofs, LINE_BYTES) == LineEnd(data, end, LINE_BYTES - (end - ofs))
      {
        LineEndStep(data, end, LINE_BYTES - (end - ofs));
        line := line + [data[end]];
        end := end + 1;
      }
      LineEndStep(data, end, LINE_BYTES - (end - ofs));
    }

    /** Take a line, and step over its end. */
    method TakeLine(ofs: nat) returns (line: Text, next: nat)
      requires ofs < |data| && data[ofs] != NUL
      ensures line == data[ofs..LineEnd(data, ofs, LINE_BYTES)]
      ensures next == SkipEnd(data, LineEnd(data, ofs, LINE_BYTES)) && next > ofs
    {
      hide LineEnd;
      LineEndMoves(data, ofs);
      line, next := CopyLine(ofs);
      if At(data, next) == RETURN {
        next := next + 1;
      }
      if At(data, next) == NEWLINE {
        next := next + 1;
      }
    }

    lemma LineEndStep(data: Text, ofs: nat, left: nat)
      requires ofs <= |data|
      ensures LineEnd(data, ofs, left) ==
              if left == 0 || ofs == |data| || Ends(data[ofs]) then ofs else LineEnd(data, ofs + 1, left - 1)
    {
    }

    /** The fields that have been read so far. */
    ghost predicate Seen(seen: set<Kind>)
      reads this`vars
    {
      forall k :: k in seen <==> HasKind(vars, k)
    }

    /** Take over one variable, and check its value by its kind. */
    method ReadVariable(v: Variable, seen: set<Kind>) returns (seen': set<Kind>)
      requires Seen(seen)
      modifies this`vars, this`errors, this`fileLength
      ensures Reading(vars, errors, fileLength) == AddVariable(old(Reading(vars, errors, fileLength)), v) && Seen(seen')
    {
      hide KindOf, Acceptable, Number, Upper, IndexOf;
      seen' := seen;
      var i := Find(v.name);
      if i < |vars| || |vars| >= MAX_VARS {
        errors := errors + 1;
        return;
      }
      var kind := KindOf(v.name);
      seen' := seen + {kind};
      var value := v.value;
      if Acceptable(kind, v.value) {
        if kind.Id? || kind.FileHash? || kind.BundleKey? || kind.Person? {
          value := Upper(value);
        }
        if kind.FileSize? && Number(v.value).Some? {
          fileLength := Number(v.value).value;
        }
      } else {
        errors := errors + 1;
      }
      KindAdded(vars, Variable(v.name, value));
      AcceptedSize(v);
      vars := vars + [Variable(v.name, value)];
    }

    lemma AcceptedSize(v: Variable)
      ensures KindOf(v.name).FileSize? ==> (Acceptable(KindOf(v.name), v.value) <==> Number(v.value).Some?)
    {
    }

    lemma KindAdded(vars: seq<Variable>, v: Variable)
      ensures forall k :: HasKind(vars + [v], k) <==> HasKind(vars, k) || k == KindOf(v.name)
    {
    }

    method ReadLine(line: Text, seen: set<Kind>) returns (seen': set<Kind>)
      requires Seen(seen)
      modifies this`vars, this`errors, this`fileLength
      ensures Reading(vars, errors, fileLength) == AddLine(old(Reading(vars, errors, fileLength)), line) && Seen(seen')
    {
      hide AddVariable, HasKind;
      seen' := seen;
      if line == [] || line[0] == HASH || line[0] == BANG {
        return;
      }
      var p := EqualsAt(line);
      if p == 0 || p == |line| {
        errors := errors + 1;
      } else {
        seen' := ReadVariable(Variable(line[..p], line[p + 1..]), seen);
      }
    }

    /** All lines of the text. */
    method ReadText() returns (seen: set<Kind>)
      requires vars == []
      modifies this`vars, this`errors, this`fileLength
      ensures Reading(vars, errors, fileLength) == ReadLines(data, 0, old(Reading(vars, errors, fileLength))).0
      ensures Seen(seen)
    {
      hide LineEnd, SkipEnd, AddLine, HasKind, ReadLines;
      var ofs := 0;
      seen := {};
      NoKinds();
      ghost var all := ReadLines(data, 0, Reading(vars, errors, fileLength));
      while ofs < |data| && data[ofs] != NUL
        invariant Seen(seen) && all == ReadLines(data, ofs, Reading(vars, errors, fileLength))
        decreases |data| - ofs
      {
        ReadStep(data, ofs, Reading(vars, errors, fileLength));
        var line;
        line, ofs := TakeLine(ofs);
        seen := ReadLine(line, seen);
      }
      ReadDone(data, ofs, Reading(vars, errors, fileLength));
    }

    lemma ReadDone(data: Text, ofs: nat, st: Reading)
      ensures !(ofs < |data| && data[ofs] != NUL) ==> ReadLines(data, ofs, st) == (st, ofs)
    {
    }

    /** rhizome_read_manifest_file, from a buffer into a new manifest */
    method ReadManifest(buffer: Text) returns (ok: bool)
      requires vars == [] && errors == 0 && fileLength == 0
      modifies this`data, this`vars, this`errors, this`fileLength
      ensures ok <==> |buffer| <= MAX_BYTES
      ensures ok ==> data == buffer && Reading(vars, errors, fileLength) == Read(buffer).0
    {
      hide HasKind, ReadLines;
      ok := |buffer| <= MAX_BYTES;
      if ok {
        data := buffer;
        var seen := ReadText();
        errors := errors + Count(Service !in seen) + Count(Id !in seen) + Count(Version !in seen) + Count(Date !in seen)
                  + Count(FileSize !in seen) + Count(FileHash !in seen && fileLength != 0)
                  + Count(FileHash in seen && fileLength == 0);
      }
    }

    lemma NoKinds()
      ensures forall k :: !HasKind([], k)
    {
    }
  
    // ----- verifying -----

    /** rhizome_manifest_extract_signature, where there is a block at `ofs` */
    method ExtractSignature(c: Signer, cache: SignatureCache.Cache, hash: seq<byte>, ofs: nat)
      returns (failed: bool, next: nat)
      requires ofs < |data| && |hash| == 64 && cache.Valid() && cache.open == c.open
      modifies this`signatories, this`errors, cache.hashes, cache.signatures, cache.lengths, cache.valid
      ensures cache.Valid() && next > ofs
      ensures var p := old(Proof(signatories, errors));
              Blocks(c, data, hash, ofs, p) ==
                if failed then Proof(signatories, errors) else Blocks(c, data, hash, next, Proof(signatories, errors))
      ensures |old(signatories)| < MAX_VARS ==> (failed <==> !Opens(c, data, hash, ofs))
      ensures |old(signatories)| < MAX_VARS && !failed ==>
                next == ofs + 97 && signatories == old(signatories) + [Slice(data, ofs + 65, ofs + 97)] && errors == old(errors)
      ensures failed ==> signatories == old(signatories) && errors == old(errors) + 1
    {
      OpensIff(c, data, hash, ofs);
      SigParts(data, ofs);
      hide SignatureCache.Verdict, Opens, Slice;
      var len := data[ofs];
      next := ofs + 1;
      failed := true;
      if len == 0 {
        errors := errors + 1;
        return;
      }
      next := ofs + len;
      if |signatories| >= MAX_VARS {
        errors := errors + 1;
        failed, next := false, next + len;
        return;
      }
      if len != BLOCK_BYTES {
        errors := errors + 1;
        return;
      }
      var sig := Slice(data, ofs + 1, ofs + BLOCK_BYTES);
      var verdict, _ := cache.Lookup(c.open, hash, sig);
      if verdict != 0 {
        errors := errors + 1;
        return;
      }
      signatories := signatories + [sig[64..]];
      failed := false;
    }

    /** Find the end of the text. */
    method EndOfText() returns (end: nat)
      ensures end == TextEnd(data, 0)
    {
      end := 0;
      while end < |data| && data[end] != NUL
        invariant end <= |data| && TextEnd(data, 0) == TextEnd(data, end)
      {
        end := end + 1;
      }
      end := end + 1;
    }

    /** Read signature blocks until the end, or the first bad one. */
    method ReadSignatures(c: Signer, cache: SignatureCache.Cache, hash: seq<byte>, from: nat)
      requires |hash| == 64 && cache.Valid() && cache.open == c.open
      modifies this`signatories, this`errors, cache.hashes, cache.signatures, cache.lengths, cache.valid
      ensures cache.Valid()
      ensures Proof(signatories, errors) == Blocks(c, data, hash, from, old(Proof(signatories, errors)))
    {
      hide Blocks;
      var ofs: nat := from;
      var failed := false;
      ghost var all := Blocks(c, data, hash, from, Proof(signatories, errors));
      while ofs < |data| && !failed
        invariant cache.Valid()
        invariant all == if failed then Proof(signatories, errors) else Blocks(c, data, hash, ofs, Proof(signatories, errors))
        decreases !failed, |data| - ofs
      {
        failed, ofs := ExtractSignature(c, cache, hash, ofs);
      }
      AllBlocks(c, data, hash, ofs, Proof(signatories, errors));
    }

    /** Make sure that the id variable names the first signatory. */
    method CheckId()
      requires !selfSigned
      modifies this`errors, this`selfSigned
      ensures var i := IndexOf(vars, IdName());
              var id := if i < |vars| then FromHex(vars[i].value, 32) else None;
              && selfSigned == (id.Some? && signatories != [] && signatories[0] == id.value)
              && errors == old(errors) + Count(!selfSigned)
    {
      hide IndexOf, FromHex;
      var id := Get(IdName());
      if id.None? {
        errors := errors + 1;
      } else {
        var bytes := FromHex(id.value, 32);
        if bytes.None? {
          errors := errors + 1;
        } else if signatories == [] || signatories[0] != bytes.value {
          errors := errors + 1;
          selfSigned := false;
        } else {
          selfSigned := true;
        }
      }
    }

    /** rhizome_manifest_verify, of a manifest that has just been read */
    method VerifyManifest(c: Signer, cache: SignatureCache.Cache) returns (ok: bool)
      requires (forall x :: |c.hash(x)| == 64) && cache.Valid() && cache.open == c.open
      requires signatories == [] && !selfSigned && !finalised
      modifies this`signatories, this`errors, this`selfSigned, this`finalised
      modifies cache.hashes, cache.signatures, cache.lengths, cache.valid
      ensures cache.Valid()
      ensures Outcome(errors, selfSigned, finalised) == Verify(c, data, vars, old(errors))
      ensures var end := TextEnd(data, 0);
        var hash := c.hash(Slice(data, 0, end));
        && (selfSigned <==> end < |data| && Opens(c, data, hash, end) && NamesKey(data, vars, end))
        && (ok <==> old(errors) == 0 && selfSigned && AllOpen(c, data, hash, end) && |data| - end <= 97 * MAX_VARS)
      ensures ok <==> errors == 0
    {
      VerifiesIff(c, data, vars, errors);
      hide Opens, NamesKey, AllOpen, TextEnd;
      hide Blocks, IndexOf, FromHex, Slice, IdName;
      var end := EndOfText();
      ReadSignatures(c, cache, c.hash(Slice(data, 0, end)), end);
      if signatories == [] {
        errors := errors + 1;
      }
      CheckId();
      if errors == 0 {
        finalised := true;
      }
      ok := errors == 0;
    }

    lemma AllBlocks(c: Signer, data: Text, hash: seq<byte>, ofs: nat, p: Proof)
      ensures ofs >= |data| ==> Blocks(c, data, hash, ofs, p) == p
    {
    }
  }

  /** A prepared manifest, finalised here, read and verified there with whatever the cache
      there holds: same variables, no errors, self-signed. */
  method Travel(m: Manifest, c: Signer, secret: seq<byte>, public: seq<byte>, length: nat, hash: seq<byte>, now: nat,
                cache: SignatureCache.Cache)
    returns (ok: bool, copy: Manifest)
    requires Prepared(m.vars, public) && length <= LARGEST && now <= LARGEST && |hash| == 64
    requires Matching(c, secret, public) && cache.Valid() && cache.open == c.open
    modifies m, cache.hashes, cache.signatures, cache.lengths, cache.valid
    ensures ok <==> |Print(Finalised(old(m.vars), length, hash, now))| + 1 + BLOCK_BYTES <= MAX_BYTES
    ensures ok ==> copy.vars == NormalAll(Finalised(old(m.vars), length, hash, now)) && copy.fileLength == length
    ensures ok ==> copy.errors == 0 && copy.selfSigned && copy.finalised
  {
    hide Prepared, Finalised, Signed, Print, Read, Verify, NormalAll;
    ghost var was := m.vars;
    ok := m.Finalise(c, secret, public, length, hash, now);
    SignedFits(c, m.vars, secret, public);
    copy := new Manifest();
    if ok {
      ManifestRoundTrip(c, was, secret, public, length, hash, now);
      SignedSize(c, m.vars, secret, public);
      var read := copy.ReadManifest(m.data);
      var verified := copy.VerifyManifest(c, cache);
    }
  }

  lemma SignedSize(c: Signer, vars: seq<Variable>, secret: seq<byte>, public: seq<byte>)
    requires Matching(c, secret, public) && Signed(c, vars, secret, public).Some?
    ensures |Signed(c, vars, secret, public).value| <= MAX_BYTES
  {
  }
}
