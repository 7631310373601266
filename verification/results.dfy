/** Results: `None` for an absent value, `Err` for a raised exception. */
module Results {
  datatype Option<+T> = None | Some(value: T) {
    function GetOr(default: T): T {
      match this
      case None => default
      case Some(v) => v
    }
  }

  datatype Result<+T, +E> = Ok(value: T) | Err(error: E)
}

/** The field checks shared by the planning modules. */
module Tokens {
  /** The characters for which `str.isspace` holds. */
  predicate IsSpace(c: char) {
    var k := c as int;
    || 9 <= k <= 13 || 28 <= k <= 32 || k == 0x85 || k == 0xa0 || k == 0x1680
    || 0x2000 <= k <= 0x200a || k == 0x2028 || k == 0x2029 || k == 0x202f || k == 0x205f
    || k == 0x3000
  }

  /** A non-empty text without whitespace. */
  predicate Token(s: string) {
    s != "" && forall c | c in s :: !IsSpace(c)
  }

  /** The 29 characters of Unicode that count as whitespace. */
  lemma SpacesExact(c: char)
    ensures IsSpace(c) <==> c as int in [
      0x09, 0x0a, 0x0b, 0x0c, 0x0d, 0x1c, 0x1d, 0x1e, 0x1f, 0x20, 0x85, 0xa0, 0x1680,
      0x2000, 0x2001, 0x2002, 0x2003, 0x2004, 0x2005, 0x2006, 0x2007, 0x2008, 0x2009, 0x200a,
      0x2028, 0x2029, 0x202f, 0x205f, 0x3000]
  {
  }

  /** A token has at least one character, and none of its characters is whitespace. */
  lemma TokenExact(s: string)
    ensures Token(s) <==> |s| >= 1 && forall i | 0 <= i < |s| :: !IsSpace(s[i])
  {
  }

  function StripLeft(s: string): string {
    if s != "" && IsSpace(s[0]) then StripLeft(s[1..]) else s
  }

  function StripRight(s: string): string {
    if s != "" && IsSpace(s[|s| - 1]) then StripRight(s[..|s| - 1]) else s
  }

  /** `str.strip`. */
  function Strip(s: string): string {
    StripRight(StripLeft(s))
  }

  ghost predicate Blank(s: string) {
    forall c | c in s :: IsSpace(c)
  }

  lemma {:induction false} StripLeftExact(s: string) returns (before: string)
    ensures s == before + StripLeft(s) && Blank(before)
    ensures StripLeft(s) != "" ==> !IsSpace(StripLeft(s)[0])
  {
    before := "";
    if s != "" && IsSpace(s[0]) {
      before := StripLeftExact(s[1..]);
      before := [s[0]] + before;
      assert s == [s[0]] + s[1..];
    }
  }

  lemma {:induction false} StripRightExact(s: string) returns (after: string)
    ensures s == StripRight(s) + after && Blank(after)
    ensures StripRight(s) != "" ==> !IsSpace(StripRight(s)[|StripRight(s)| - 1])
  {
    after := "";
    if s != "" && IsSpace(s[|s| - 1]) {
      after := StripRightExact(s[..|s| - 1]);
      after := after + [s[|s| - 1]];
      assert s == s[..|s| - 1] + [s[|s| - 1]];
    }
  }

  /** What is left has no blank at its ends, and only blanks are cut off around it. */
  lemma StripExact(s: string)
    ensures exists before, after :: s == before + (Strip(s) + after) && Blank(before) && Blank(after)
    ensures Strip(s) != "" ==> !IsSpace(Strip(s)[0]) && !IsSpace(Strip(s)[|Strip(s)| - 1])
  {
    var before := StripLeftExact(s);
    var after := StripRightExact(StripLeft(s));
    if Strip(s) != "" {
      assert Strip(s)[0] == StripLeft(s)[0];
    }
  }

  lemma TokenStrip(s: string)
    ensures Token(s) ==> Strip(s) == s
  {
  }
}

/** SHA-256 as a parameter. */
module Digests {
  type Digest = string -> string

  ghost predicate CollisionFree(hash: Digest) {
    forall s, t :: hash(s) == hash(t) ==> s == t
  }
}
