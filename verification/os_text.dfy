/** Platform strings (`OsStr`): a sequence of characters in which stray bytes
    that are not valid UTF-8 may occur. Such a string has a text form
    (`to_str`) exactly when it holds no stray byte. A platform string is
    taken to be split into units the standard way: every valid UTF-8
    sequence is one `Char`, and only the bytes left over are `Raw`. */
module OsText {
  import opened Types

  /** A byte at or above 0x80, standing for one that is not part of a valid
      UTF-8 sequence. Every ASCII byte is valid UTF-8 on its own, so stray
      bytes are never ASCII. */
  newtype HighByte = b: int | 0x80 <= b < 0x100 witness 0x80

  /** One unit of a platform string: a character, or a stray byte. */
  datatype Unit = Char(c: char) | Raw(b: HighByte)

  type OsStr = seq<Unit>

  predicate IsAsciiUpper(c: char) {
    'A' <= c <= 'Z'
  }

  predicate IsAsciiLower(c: char) {
    'a' <= c <= 'z'
  }

  /** `char::to_ascii_lowercase`: maps 'A'..'Z' to 'a'..'z', nothing else moves. */
  function AsciiLower(c: char): (r: char)
    ensures !IsAsciiUpper(r)
    ensures !IsAsciiUpper(c) ==> r == c
    ensures IsAsciiUpper(c) ==> IsAsciiLower(r) && r as int == c as int + 32
  {
    if IsAsciiUpper(c) then (c as int + 32) as char else c
  }

  function LowerUnit(u: Unit): Unit {
    match u
    case Char(c) => Char(AsciiLower(c))
    case Raw(b) => Raw(b)
  }

  /** `OsStr::to_ascii_lowercase`: unit by unit, characters lowered, stray bytes
      (never ASCII) kept. */
  function ToAsciiLowercase(s: OsStr): (r: OsStr)
    ensures |r| == |s|
    ensures forall i :: 0 <= i < |s| ==>
      (match s[i]
       case Raw(_) => r[i] == s[i]
       case Char(c) =>
         && r[i].Char? && !IsAsciiUpper(r[i].c)
         && (IsAsciiUpper(c) ==> r[i].c as int == c as int + 32)
         && (!IsAsciiUpper(c) ==> r[i] == s[i]))
  {
    seq(|s|, i requires 0 <= i < |s| => LowerUnit(s[i]))
  }

  /** `OsStr::to_str`: the text form, present exactly when no stray byte occurs. */
  function ToStr(s: OsStr): (r: Option<string>)
    ensures r.Some? <==> forall i :: 0 <= i < |s| ==> s[i].Char?
    ensures r.Some? ==> |r.value| == |s|
    ensures r.Some? ==> forall i :: 0 <= i < |s| ==> s[i] == Char(r.value[i])
  {
    if s == [] then Some([])
    else
      match s[0]
      case Raw(_) => None
      case Char(c) =>
        match ToStr(s[1..])
        case None => None
        case Some(t) => Some([c] + t)
  }

  /** `OsStr::new`: a string seen as a platform string. */
  function FromStr(t: string): (r: OsStr)
    ensures |r| == |t|
    ensures forall i :: 0 <= i < |t| ==> r[i] == Char(t[i])
  {
    seq(|t|, i requires 0 <= i < |t| => Char(t[i]))
  }

  /** The text form of a string is that string. */
  lemma ToStrFromStr(t: string)
    ensures ToStr(FromStr(t)) == Some(t)
  {
    var r := ToStr(FromStr(t));
    assert r.Some?;
    assert r.value == t;
  }

  /** A platform string is rebuilt from its text form. */
  lemma FromStrToStr(s: OsStr)
    requires ToStr(s).Some?
    ensures FromStr(ToStr(s).value) == s
  {
  }

  /** Lowering the case never creates or removes a stray byte, so a string has
      a text form after `to_ascii_lowercase` exactly when it had one before. */
  lemma LowercaseKeepsText(s: OsStr)
    ensures ToStr(ToAsciiLowercase(s)).Some? <==> ToStr(s).Some?
  {
  }

}
