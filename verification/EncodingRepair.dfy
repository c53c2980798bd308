/**
 The repair of double-encoded text: UTF-8 that was read as Windows-1252 and
 saved again. A pass rewrites every maximal run of two or more upper-half
 characters whose bytes are themselves UTF-8.
 */
module EncodingRepair {
  import opened Bytes
  import opened Utf8
  import opened Windows1252
  import opened RunSubstitution

  const BOM: scalar := 0xFEFF

  // The damage: each byte of the text's UTF-8 shown as its Windows-1252 character.
  function ReadAs1252(b: seq<byte>): (s: Text)
    ensures |s| == |b| && forall i :: 0 <= i < |b| ==> s[i] == CharOf(b[i])
  {
    seq(|b|, i requires 0 <= i < |b| => CharOf(b[i]))
  }

  function Misread(t: Text): Text {
    ReadAs1252(Encode(t))
  }

  function BytesOf(s: Text): (b: seq<byte>)
    requires AllIn(IsUpper, s)
    ensures |b| == |s| && forall i :: 0 <= i < |s| ==> b[i] == ByteOf(s[i]).value
  {
    seq(|s|, i requires 0 <= i < |s| => ByteOf(s[i]).value)
  }

  // `reverse`, on a run of upper-half characters.
  function Reverse(s: Text): Text {
    if !AllIn(IsUpper, s) then s else
      var t := Decode(BytesOf(s));
      if t.Some? then t.value else s
  }

  // One pass over a text.
  function Repair(s: Text): Text {
    Sub(IsUpper, Reverse, s)
  }

  function StripBom(s: Text): Text {
    if s != [] && s[0] == BOM then StripBom(s[1..]) else s
  }

  // What the script makes of a file's text; `--check` accepts a text this leaves alone.
  function Fixed(s: Text): Text {
    Repair(StripBom(s))
  }

  predicate Accepted(s: Text) {
    Fixed(s) == s
  }

  predicate IsAscii(c: scalar) {
    c < 0x80
  }

  predicate NoAscii(t: Text) {
    forall i :: 0 <= i < |t| ==> !IsAscii(t[i])
  }

  // ---- One run ----

  lemma BytesOfReadAs1252(b: seq<byte>)
    requires AllIn(IsUpper, ReadAs1252(b))
    ensures BytesOf(ReadAs1252(b)) == b
  {
    forall i | 0 <= i < |b|
      ensures BytesOf(ReadAs1252(b))[i] == b[i]
    {
      ByteOfCharOf(b[i]);
    }
  }

  lemma ReadAs1252OfBytes(s: Text)
    requires AllIn(IsUpper, s)
    ensures ReadAs1252(BytesOf(s)) == s
  {
    forall i | 0 <= i < |s|
      ensures ReadAs1252(BytesOf(s))[i] == s[i]
    {
      CharOfByteOf(s[i]);
    }
  }

  lemma {:induction false} EncodeHigh(t: Text)
    requires NoAscii(t)
    ensures |Encode(t)| >= 2 * |t|
    ensures forall i :: 0 <= i < |Encode(t)| ==> Encode(t)[i] >= 0x80
  {
    if t != [] {
      EncodeHigh(t[1..]);
    }
  }

  lemma {:induction false} HighEncodesNoAscii(t: Text)
    requires forall i :: 0 <= i < |Encode(t)| ==> Encode(t)[i] >= 0x80
    ensures NoAscii(t)
  {
    if t != [] {
      var e, first := Encode(t), EncodeChar(t[0]);
      assert forall i :: 0 <= i < |Encode(t[1..])| ==> Encode(t[1..])[i] == e[|first| + i];
      HighEncodesNoAscii(t[1..]);
      assert e[0] == first[0];
    }
  }

  /** A misreading of text without ASCII is a run, at least twice as long as the text. */
  lemma MisreadIsRun(t: Text)
    requires NoAscii(t)
    ensures AllIn(IsUpper, Misread(t)) && |Misread(t)| >= 2 * |t|
  {
    EncodeHigh(t);
    forall i | 0 <= i < |Misread(t)|
      ensures IsUpper(Misread(t)[i])
    {
      CharOfHalves(Encode(t)[i]);
    }
  }

  lemma RunIsMisreadOfNoAscii(t: Text)
    requires AllIn(IsUpper, Misread(t))
    ensures NoAscii(t)
  {
    forall i | 0 <= i < |Encode(t)|
      ensures Encode(t)[i] >= 0x80
    {
      CharOfHalves(Encode(t)[i]);
      assert IsUpper(Misread(t)[i]);
    }
    HighEncodesNoAscii(t);
  }

  /** No run is the misreading of two texts. */
  lemma MisreadInjective(t: Text, u: Text)
    requires Misread(t) == Misread(u)
    ensures t == u
  {
    var a, b := Encode(t), Encode(u);
    assert |a| == |Misread(t)| == |b|;
    forall i | 0 <= i < |a|
      ensures a[i] == b[i]
    {
      ByteOfCharOf(a[i]);
      ByteOfCharOf(b[i]);
      assert Misread(t)[i] == Misread(u)[i];
    }
    assert a == b;
    DecodeEncode(t);
    DecodeEncode(u);
  }

  lemma ReverseMisread(t: Text)
    requires AllIn(IsUpper, Misread(t))
    ensures Reverse(Misread(t)) == t
  {
    BytesOfReadAs1252(Encode(t));
    DecodeEncode(t);
  }

  /**
   A run is changed exactly when it is the misreading of some text, and then to that text:
   no ASCII in it, at most half as long, and misreading it again gives the run back.
   */
  lemma ReverseExact(s: Text)
    requires s != [] && AllIn(IsUpper, s)
    ensures Reverse(s) != s <==> exists t :: Misread(t) == s
    ensures Reverse(s) != s ==> Misread(Reverse(s)) == s && NoAscii(Reverse(s)) && 2 * |Reverse(s)| <= |s|
  {
    var decoded := Decode(BytesOf(s));
    if decoded.Some? {
      EncodeDecode(BytesOf(s), decoded.value);
      ReadAs1252OfBytes(s);
      assert Misread(decoded.value) == s;
      RunIsMisreadOfNoAscii(decoded.value);
      MisreadIsRun(decoded.value);
    }
    forall t | Misread(t) == s
      ensures Reverse(s) == t && |t| < |s|
    {
      ReverseMisread(t);
      RunIsMisreadOfNoAscii(t);
      MisreadIsRun(t);
    }
  }

  // ---- One pass ----

  lemma ReverseEmpty()
    ensures Reverse([]) == []
  {
    var none: Text := [];
    assert BytesOf(none) == [];
  }

  lemma ReverseShortens()
    ensures Shortens(IsUpper, Reverse)
  {
    forall r: Text | AllIn(IsUpper, r) && Reverse(r) != r
      ensures |Reverse(r)| < |r|
    {
      ReverseEmpty();
      ReverseExact(r);
    }
  }

  lemma {:induction false} KeepNothing(t: Text)
    requires NoAscii(t)
    ensures Keep(IsAscii, t) == []
  {
    if t != [] {
      KeepNothing(t[1..]);
    }
  }

  lemma ReverseKeepsNothing()
    ensures Disjoint(IsUpper, Reverse, IsAscii)
  {
    forall r: Text | AllIn(IsUpper, r)
      ensures Keep(IsAscii, r) == [] && Keep(IsAscii, Reverse(r)) == []
    {
      assert forall i :: 0 <= i < |r| ==> IsUpper(r[i]);
      KeepNothing(r);
      ReverseEmpty();
      if Reverse(r) != r {
        ReverseExact(r);
        KeepNothing(Reverse(r));
      }
    }
  }

  predicate NotAscii(c: scalar) {
    !IsAscii(c)
  }

  lemma MisreadConcat(t: Text, u: Text)
    ensures Misread(t + u) == Misread(t) + Misread(u)
  {
    EncodeConcat(t, u);
  }

  lemma MisreadAscii(c: scalar)
    requires IsAscii(c)
    ensures Misread([c]) == [c] && !IsUpper(c)
  {
    assert [c][1..] == [];
    assert Encode([c]) == [c];
    CharOfHalves(c);
  }

  // A misread text starts with ASCII exactly where the text does.
  lemma MisreadFront(t: Text)
    requires t == [] || IsAscii(t[0])
    ensures Misread(t) == [] || !IsUpper(Misread(t)[0])
  {
    if t != [] {
      assert t == [t[0]] + t[1..];
      MisreadConcat([t[0]], t[1..]);
      MisreadAscii(t[0]);
    }
  }

  /** One pass over a misread text gives back exactly the text. */
  lemma {:induction false} RepairMisread(t: Text)
    ensures Repair(Misread(t)) == t
    decreases |t|
  {
    if t != [] {
      var n := FrontLength(NotAscii, t);
      var front, rest := t[..n], t[n..];
      FrontIsRun(NotAscii, t);
      MisreadConcat(front, rest);
      RepairMisread(rest);
      if IsAscii(t[0]) {
        assert front == [t[0]];
        MisreadAscii(t[0]);
        SubOutside(IsUpper, Reverse, t[0], Misread(rest));
      } else {
        assert NoAscii(front);
        MisreadIsRun(front);
        MisreadFront(rest);
        SubRun(IsUpper, Reverse, Misread(front), Misread(rest));
        ReverseMisread(front);
      }
    }
  }

  lemma NoBomInMisread(t: Text)
    ensures StripBom(Misread(t)) == Misread(t)
  {
    if Misread(t) != [] {
      ByteOfCharOf(Encode(t)[0]);
    }
  }

  /** The script undoes one round of damage, byte order mark or not. */
  lemma FixedMisread(t: Text)
    ensures Fixed(Misread(t)) == t
  {
    NoBomInMisread(t);
    RepairMisread(t);
  }

  function MisreadTimes(k: nat, t: Text): Text {
    if k == 0 then t else Misread(MisreadTimes(k - 1, t))
  }

  function FixedTimes(k: nat, s: Text): Text {
    if k == 0 then s else FixedTimes(k - 1, Fixed(s))
  }

  /** k runs of the script undo k rounds of damage. */
  lemma {:induction false} FixedTimesMisreadTimes(k: nat, t: Text)
    ensures FixedTimes(k, MisreadTimes(k, t)) == t
  {
    if k > 0 {
      FixedMisread(MisreadTimes(k - 1, t));
      FixedTimesMisreadTimes(k - 1, t);
    }
  }

  /** `--check` accepts a misread text exactly when the text was plain ASCII. */
  lemma {:induction false} AcceptedMisread(t: Text)
    ensures Accepted(Misread(t)) <==> Keep(NotAscii, t) == []
  {
    FixedMisread(t);
    MisreadLength(t);
  }

  lemma {:induction false} MisreadLength(t: Text)
    ensures Misread(t) == t <==> Keep(NotAscii, t) == []
    ensures |Misread(t)| >= |t|
    ensures Keep(NotAscii, t) != [] ==> |Misread(t)| > |t|
  {
    if t != [] {
      MisreadLength(t[1..]);
      assert t == [t[0]] + t[1..];
      MisreadConcat([t[0]], t[1..]);
      if IsAscii(t[0]) {
        MisreadAscii(t[0]);
        assert Misread(t) == t <==> Misread(t[1..]) == t[1..] by {
          assert Misread(t)[1..] == Misread(t[1..]);
        }
      } else {
        MisreadIsRun([t[0]]);
      }
    }
  }

  /** One pass is not enough for twice-damaged text: e acute, misread twice, is rejected again after a pass. */
  lemma OnePassIsNotEnough()
    ensures var twice := MisreadTimes(2, [0xE9]);
      Fixed(twice) != twice && !Accepted(Fixed(twice))
  {
    var t: Text := [0xE9];
    FixedMisread(Misread(t));
    assert MisreadTimes(1, t) == Misread(MisreadTimes(0, t));
    AcceptedMisread(t);
    assert Keep(NotAscii, t) == [0xE9] + Keep(NotAscii, t[1..]);
    MisreadLength(Misread(t));
    MisreadIsRun(t);
    assert Keep(NotAscii, Misread(t)) != [] by {
      assert IsUpper(Misread(t)[0]);
    }
  }

  // ---- Repeated passes ----

  lemma {:induction false} StripBomKeeps(s: Text)
    ensures |StripBom(s)| <= |s| && (StripBom(s) != s ==> |StripBom(s)| < |s|)
    ensures Keep(IsAscii, StripBom(s)) == Keep(IsAscii, s)
  {
    if s != [] && s[0] == BOM {
      StripBomKeeps(s[1..]);
    }
  }

  /** A run of the script keeps the ASCII of a text in order and strictly shortens whatever it changes. */
  lemma FixedKeeps(s: Text)
    ensures Keep(IsAscii, Fixed(s)) == Keep(IsAscii, s)
    ensures Accepted(s) || |Fixed(s)| < |s|
  {
    StripBomKeeps(s);
    ReverseShortens();
    ReverseKeepsNothing();
    SubShortens(IsUpper, Reverse, StripBom(s));
    SubKeeps(IsUpper, Reverse, IsAscii, StripBom(s));
  }

  // Run the script until nothing changes.
  function Settled(s: Text): (r: Text)
    ensures Accepted(r) && Keep(IsAscii, r) == Keep(IsAscii, s) && |r| <= |s|
    decreases |s|
  {
    FixedKeeps(s);
    if Accepted(s) then s else Settled(Fixed(s))
  }

  /**
   What `--check` accepts: no byte order mark in front, and no maximal run of two or more
   upper-half characters that is the misreading of any text.
   */
  lemma AcceptedExact(s: Text)
    ensures Accepted(s) <==>
      && (s == [] || s[0] != 0xFEFF)
      && forall i: nat, j: nat :: MaximalRun(IsUpper, s, i, j) && j - i >= 2 ==> !exists t :: Misread(t) == s[i..j]
  {
    StripBomKeeps(s);
    ReverseShortens();
    SubShortens(IsUpper, Reverse, StripBom(s));
    if s == [] || s[0] != BOM {
      assert StripBom(s) == s;
      SubUnchanged(IsUpper, Reverse, s);
      forall i: nat, j: nat | MaximalRun(IsUpper, s, i, j) && j - i >= 2
        ensures Reverse(s[i..j]) == s[i..j] <==> !exists t :: Misread(t) == s[i..j]
      {
        ReverseExact(s[i..j]);
      }
    } else {
      StripBomKeeps(s[1..]);
    }
  }

  // ---- The files ----

  // A tracked file's bytes; nothing when it cannot be opened.
  type File = Option<seq<byte>>

  predicate Offends(f: File) {
    f.Some? && Decode(f.value).Some? && !Accepted(Decode(f.value).value)
  }

  function Repaired(f: File): File {
    if Offends(f) then Some(Encode(Fixed(Decode(f.value).value))) else f
  }

  // The loop over the files, for any test and rewriting of one file.
  method Visit(offends: File -> bool, rewrite: File -> File, files: array<File>, check: bool) returns (bad: seq<nat>)
    modifies files
    ensures forall i: nat :: i in bad <==> i < files.Length && offends(old(files[i]))
    ensures forall a, b :: 0 <= a < b < |bad| ==> bad[a] < bad[b]
    ensures forall i :: 0 <= i < files.Length ==>
      files[i] == if !check && offends(old(files[i])) then rewrite(old(files[i])) else old(files[i])
  {
    bad := [];
    for k := 0 to files.Length
      invariant forall i: nat :: i in bad <==> i < k && offends(old(files[i]))
      invariant forall a, b :: 0 <= a < b < |bad| ==> bad[a] < bad[b]
      invariant forall i :: 0 <= i < files.Length ==>
        files[i] == if !check && i < k && offends(old(files[i])) then rewrite(old(files[i])) else old(files[i])
    {
      assert forall a :: 0 <= a < |bad| ==> bad[a] in bad;
      if offends(files[k]) {
        bad := bad + [k];
        if !check {
          files[k] := rewrite(files[k]);
        }
      }
    }
  }

  /**
   The script over all tracked files: it lists exactly the offenders, once each and in order,
   fails only under `--check`, and without `--check` rewrites the offenders and nothing else.
   */
  method Sweep(files: array<File>, check: bool) returns (bad: seq<nat>, exit: int)
    modifies files
    ensures forall i: nat :: i in bad <==> i < files.Length && Offends(old(files[i]))
    ensures forall a, b :: 0 <= a < b < |bad| ==> bad[a] < bad[b]
    ensures exit == if check && bad != [] then 1 else 0
    ensures forall i :: 0 <= i < files.Length ==>
      files[i] == if check then old(files[i]) else Repaired(old(files[i]))
  {
    bad := Visit(Offends, Repaired, files, check);
    exit := if check && bad != [] then 1 else 0;
  }

  // ---- What that means for a file's bytes ----

  // The byte order mark as UTF-8 writes it.
  const MARK: seq<byte> := [0xEF, 0xBB, 0xBF]

  function StripMarks(b: seq<byte>): seq<byte>
    decreases |b|
  {
    if [0xEF, 0xBB, 0xBF] <= b then StripMarks(b[3..]) else b
  }

  lemma MarkIsBom()
    ensures EncodeChar(BOM) == MARK && DecodeChar(MARK) == Some(Step(BOM, 3))
  {
    DecodeEncodeChar(BOM);
  }

  lemma DecodeMark(b: seq<byte>)
    requires MARK <= b && Decode(b).Some?
    ensures Decode(b[3..]).Some? && Decode(b).value == [BOM] + Decode(b[3..]).value
  {
    MarkIsBom();
    assert b == MARK + b[3..];
    DecodeCharPrefix(MARK, b[3..]);
  }

  lemma NoMarkNoBom(b: seq<byte>)
    requires Decode(b).Some? && !(MARK <= b)
    ensures Decode(b).value == [] || Decode(b).value[0] != BOM
  {
    MarkIsBom();
    if b != [] {
      DecodeFirst(b, Decode(b).value);
    }
  }

  lemma {:induction false} StripMarksDecodes(b: seq<byte>)
    requires Decode(b).Some?
    ensures Decode(StripMarks(b)) == Some(StripBom(Decode(b).value))
    decreases |b|
  {
    if MARK <= b {
      DecodeMark(b);
      StripMarksDecodes(b[3..]);
      assert ([BOM] + Decode(b[3..]).value)[1..] == Decode(b[3..]).value;
    } else {
      NoMarkNoBom(b);
    }
  }

  /**
   A decodable file offends exactly when it begins with the bytes EF BB BF or a pass changes its
   text, and is then rewritten as the repair of what is left once its leading marks are gone.
   */
  lemma OffendsExact(b: seq<byte>)
    requires Decode(b).Some?
    ensures Offends(Some(b)) <==> [0xEF, 0xBB, 0xBF] <= b || Repair(Decode(b).value) != Decode(b).value
    ensures Decode(StripMarks(b)).Some?
    ensures Repaired(Some(b)) == Some(Encode(Repair(Decode(StripMarks(b)).value)))
  {
    var t := Decode(b).value;
    StripMarksDecodes(b);
    if MARK <= b {
      DecodeMark(b);
      StripBomKeeps(Decode(b[3..]).value);
      ReverseShortens();
      SubShortens(IsUpper, Reverse, StripBom(t));
    } else {
      NoMarkNoBom(b);
    }
    if !Offends(Some(b)) {
      EncodeDecode(b, t);
    }
  }

  /** A byte order mark in front of any decodable file is refused, and goes. */
  lemma MarkOffends(rest: seq<byte>)
    requires Decode(rest).Some?
    ensures Offends(Some([0xEF, 0xBB, 0xBF] + rest))
    ensures Repaired(Some([0xEF, 0xBB, 0xBF] + rest)) == Repaired(Some(rest))
  {
    var b := MARK + rest;
    MarkIsBom();
    DecodeCharPrefix(MARK, rest);
    assert b[3..] == rest;
    OffendsExact(b);
    OffendsExact(rest);
  }

  /** A repaired file decodes to the fixed text and never grows, so repeated sweeps settle. */
  lemma RepairedText(f: File)
    requires Offends(f)
    ensures var text := Decode(f.value).value;
      && Repaired(f).Some? && Decode(Repaired(f).value) == Some(Fixed(text)) && |Fixed(text)| < |text|
  {
    DecodeEncode(Fixed(Decode(f.value).value));
    FixedKeeps(Decode(f.value).value);
  }
}
