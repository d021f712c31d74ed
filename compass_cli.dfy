/*
  `parse_linkages` (`navigation_compass_solver/src/main.rs`): the `-l`
  arguments, such as "101" or "001", turned into linkages. The digits are
  read inner, middle, outer from the left. A string of the wrong length or
  with a character other than '0' and '1' stops the program with a
  message; here that is a `Failure` naming the string.
*/
module CompassCli {
  import opened Wrappers
  import opened CompassLinkage

  /** Why an argument was refused. */
  datatype ParseError = WrongLength(raw: string) | UnknownCharacter(raw: string)

  /** `s.chars().rev()`. */
  function Reverse(s: string): (r: string)
    ensures |r| == |s|
    ensures forall i :: 0 <= i < |s| ==> r[i] == s[|s| - 1 - i]
  {
    if s == [] then [] else Reverse(s[1..]) + [s[0]]
  }

  /** Every character is '0' or '1'. */
  predicate AllBits(s: string)
  {
    forall i :: 0 <= i < |s| ==> s[i] == '0' || s[i] == '1'
  }

  /** `.enumerate().fold(acc, ...)`: the character at position `idx + i` sets bit `idx + i` when it is '1'. */
  function SetBits(chars: string, idx: nat, acc: Byte): Byte
    requires idx + |chars| <= 8
  {
    if chars == [] then acc
    else SetBits(chars[1..], idx + 1, if chars[0] == '1' then acc | ((1 as Byte) << idx) else acc)
  }

  /** The mask a string of digits spells, read from its last character as bit 0. */
  function Mask(raw: string): Byte
    requires |raw| <= 8
  {
    SetBits(Reverse(raw), 0, 0)
  }

  /** One argument: the length check first, then the character check, then the mask. */
  function ParseLinkage(raw: string): Result<Linkage, ParseError>
  {
    if |raw| != 3 then Failure(WrongLength(raw))
    else if !AllBits(raw) then Failure(UnknownCharacter(raw))
    else Success(New(Mask(raw)))
  }

  /** `parse_linkages`: every argument in order; the first one refused stops everything. */
  function ParseLinkages(raw: seq<string>): Result<seq<Linkage>, ParseError>
  {
    if raw == [] then Success([])
    else match ParseLinkage(raw[0])
      case Failure(e) => Failure(e)
      case Success(l) =>
        match ParseLinkages(raw[1..])
        case Failure(e) => Failure(e)
        case Success(ls) => Success([l] + ls)
  }

  /** The value of a digit: 1 for '1', 0 otherwise. */
  function DigitBit(c: char): Byte
  {
    if c == '1' then 1 else 0
  }

  /** A three-digit string spells the mask whose bit `2 - i` is its `i`-th digit. */
  lemma MaskOfThree(raw: string)
    requires |raw| == 3
    ensures Mask(raw) == (DigitBit(raw[0]) << 2) | (DigitBit(raw[1]) << 1) | DigitBit(raw[2])
  {
    var r := Reverse(raw);
    assert r == [raw[2], raw[1], raw[0]];
    var a0: Byte := if raw[2] == '1' then 1 else 0;
    var a1: Byte := if raw[1] == '1' then a0 | 2 else a0;
    var a2: Byte := if raw[0] == '1' then a1 | 4 else a1;
    assert SetBits(r, 0, 0) == SetBits(r[1..], 1, a0);
    assert SetBits(r[1..], 1, a0) == SetBits(r[2..], 2, a1);
    assert SetBits(r[2..], 2, a1) == SetBits([], 3, a2);
  }

  /** A parsed mask never has a bit above bit 2 set. */
  lemma MaskIsSmall(raw: string)
    requires |raw| == 3
    ensures Mask(raw) <= 7
  {
    MaskOfThree(raw);
  }

  /**
    The length is checked before the characters; a string is accepted
    exactly when it has three characters, all '0' or '1', and then the
    character at position `i` from the left is the flag of bit `2 - i`:
    inner, middle, outer.
   */
  lemma ParseLinkageResult(raw: string)
    ensures |raw| != 3 ==> ParseLinkage(raw) == Failure(WrongLength(raw))
    ensures |raw| == 3 && !AllBits(raw) ==> ParseLinkage(raw) == Failure(UnknownCharacter(raw))
    ensures ParseLinkage(raw).Success? <==> |raw| == 3 && AllBits(raw)
    ensures ParseLinkage(raw).Success? ==>
      ParseLinkage(raw).value == Linkage(raw[0] == '1', raw[1] == '1', raw[2] == '1')
  {
    if |raw| == 3 && AllBits(raw) {
      MaskOfThree(raw);
      var m := Mask(raw);
      assert m & 4 != 0 <==> raw[0] == '1';
      assert m & 2 != 0 <==> raw[1] == '1';
      assert m & 1 != 0 <==> raw[2] == '1';
    }
  }

  /** The usage examples: "100" is the inner ring only and "101" the inner and outer rings. */
  lemma UsageExamples()
    ensures ParseLinkage("100") == Success(Linkage(true, false, false))
    ensures ParseLinkage("101") == Success(Linkage(true, false, true))
  {
    ParseLinkageResult("100");
    ParseLinkageResult("101");
  }

  /** Parsing the rendering of a linkage gives the linkage back. */
  lemma ParseDebug(l: Linkage)
    ensures ParseLinkage(l.Debug()) == Success(l)
  {
    DebugShape(l);
    ParseLinkageResult(l.Debug());
  }

  /**
    The list parses when every argument does, and then it keeps their
    number and order; otherwise the error is that of the first argument
    refused.
   */
  lemma {:induction false} ParseLinkagesResult(raw: seq<string>)
    ensures ParseLinkages(raw).Success? <==> forall i :: 0 <= i < |raw| ==> ParseLinkage(raw[i]).Success?
    ensures ParseLinkages(raw).Success? ==>
      |ParseLinkages(raw).value| == |raw| &&
      forall i :: 0 <= i < |raw| ==> ParseLinkages(raw).value[i] == ParseLinkage(raw[i]).value
    ensures ParseLinkages(raw).Failure? ==>
      exists i :: 0 <= i < |raw| && ParseLinkage(raw[i]) == Failure(ParseLinkages(raw).error) &&
        forall j :: 0 <= j < i ==> ParseLinkage(raw[j]).Success?
  {
    if raw != [] {
      ParseLinkagesResult(raw[1..]);
      var rest := raw[1..];
      assert forall i :: 1 <= i < |raw| ==> raw[i] == rest[i - 1];
      if ParseLinkage(raw[0]).Success? && ParseLinkages(rest).Failure? {
        var i :| 0 <= i < |rest| && ParseLinkage(rest[i]) == Failure(ParseLinkages(rest).error) &&
          forall j :: 0 <= j < i ==> ParseLinkage(rest[j]).Success?;
        assert raw[i + 1] == rest[i];
        assert forall j :: 1 <= j < i + 1 ==> ParseLinkage(raw[j]).Success?;
      }
    }
  }

  /** The renderings of a list of linkages, as a list of arguments. */
  function Rendered(ls: seq<Linkage>): (raw: seq<string>)
    ensures |raw| == |ls|
    ensures forall i :: 0 <= i < |ls| ==> raw[i] == ls[i].Debug()
  {
    if ls == [] then [] else [ls[0].Debug()] + Rendered(ls[1..])
  }

  /** Rendering a list of linkages and parsing it back gives the same list. */
  lemma {:induction false} ParseRendered(ls: seq<Linkage>)
    ensures ParseLinkages(Rendered(ls)) == Success(ls)
  {
    if ls != [] {
      var raw := Rendered(ls);
      ParseDebug(ls[0]);
      ParseRendered(ls[1..]);
      assert raw[0] == ls[0].Debug() && raw[1..] == Rendered(ls[1..]);
      assert ls == [ls[0]] + ls[1..];
    }
  }
}
