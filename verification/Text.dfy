/** The `std::string` operations the parsers rely on. A byte is modelled as a `char`. */
module Text {
  import opened Wrappers

  const CRLF: string := "\r\n"

  /** `needle` stands in `hay` at offset `i`. */
  predicate OccursAt(hay: string, needle: string, i: nat) {
    i + |needle| <= |hay| && hay[i..i + |needle|] == needle
  }

  /** `std::string::find`: the first occurrence of `needle`, if there is one. */
  function Find(hay: string, needle: string): (r: Option<nat>)
    ensures r.Some? ==> OccursAt(hay, needle, r.value)
    ensures r.Some? ==> forall j: nat | j < r.value :: !OccursAt(hay, needle, j)
    ensures r.None? ==> forall j: nat :: !OccursAt(hay, needle, j)
  {
    if |hay| < |needle| then None
    else if hay[..|needle|] == needle then
      assert OccursAt(hay, needle, 0);
      Some(0)
    else
      var tail := Find(hay[1..], needle);
      assert forall j: nat | 0 < j :: OccursAt(hay, needle, j) <==> OccursAt(hay[1..], needle, j - 1) by {
        forall j: nat | 0 < j ensures OccursAt(hay, needle, j) <==> OccursAt(hay[1..], needle, j - 1) {
          OccursAtDrop(hay, needle, 1, j - 1);
        }
      }
      assert !OccursAt(hay, needle, 0);
      match tail
      case None => None
      case Some(i) => Some(i + 1)
  }

  lemma Regroup(a: string, b: string, c: string)
    ensures (a + b) + c == a + (b + c)
  {
  }

  /** Occurrences in a suffix are the occurrences in the whole, shifted. */
  lemma OccursAtDrop(hay: string, needle: string, k: nat, j: nat)
    requires k <= |hay|
    ensures OccursAt(hay[k..], needle, j) <==> OccursAt(hay, needle, k + j)
  {
    if k + j + |needle| <= |hay| {
      assert hay[k..][j..j + |needle|] == hay[k + j..k + j + |needle|];
    }
  }

  /** Occurrences that end inside `a` are the same in `a` and in `a + b`. */
  lemma OccursAtPrefix(a: string, b: string, needle: string, j: nat)
    requires j + |needle| <= |a|
    ensures OccursAt(a, needle, j) <==> OccursAt(a + b, needle, j)
  {
    assert (a + b)[j..j + |needle|] == a[j..j + |needle|];
  }

  /** The first occurrence is the only offset with an occurrence and none before it. */
  lemma FindIs(hay: string, needle: string, i: nat)
    requires OccursAt(hay, needle, i)
    requires forall j: nat | j < i :: !OccursAt(hay, needle, j)
    ensures Find(hay, needle) == Some(i)
  {
  }

  lemma OccursHere(pre: string, needle: string, post: string)
    ensures OccursAt(pre + (needle + post), needle, |pre|)
    ensures (pre + (needle + post))[..|pre|] == pre && (pre + (needle + post))[|pre| + |needle|..] == post
  {
  }

  /** One differing byte rules an occurrence out. */
  lemma Differs(s: string, needle: string, j: nat, k: nat)
    requires k < |needle| && j + k < |s| && s[j + k] != needle[k]
    ensures !OccursAt(s, needle, j)
  {
    if j + |needle| <= |s| { assert s[j..j + |needle|][k] == s[j + k]; }
  }

  /** The first occurrence after a text that does not hold the needle's first byte. */
  lemma FindAfter(pre: string, needle: string, post: string)
    requires needle != "" && needle[0] !in pre
    ensures Find(pre + (needle + post), needle) == Some(|pre|)
    ensures (pre + (needle + post))[..|pre|] == pre && (pre + (needle + post))[|pre| + |needle|..] == post
  {
    hide Find, OccursAt;
    var s := pre + (needle + post);
    OccursHere(pre, needle, post);
    forall j: nat | j < |pre| ensures !OccursAt(s, needle, j) {
      assert s[j] == pre[j];
      Differs(s, needle, j, 0);
    }
    FindIs(s, needle, |pre|);
  }

  lemma FindNothing(s: string, needle: string)
    requires needle != "" && needle[0] !in s
    ensures Find(s, needle).None?
  {
    forall j: nat ensures !OccursAt(s, needle, j) {
      if j + |needle| <= |s| { Differs(s, needle, j, 0); }
    }
  }

  /** More input does not move an occurrence already found. */
  lemma FindAppend(a: string, b: string, needle: string)
    requires Find(a, needle).Some?
    ensures Find(a + b, needle) == Find(a, needle)
  {
    var i := Find(a, needle).value;
    OccursAtPrefix(a, b, needle, i);
    forall j: nat | j < i ensures !OccursAt(a + b, needle, j) {
      OccursAtPrefix(a, b, needle, j);
    }
    FindIs(a + b, needle, i);
  }

  /** When `a` holds no occurrence, its first `k` bytes can be dropped as long as fewer than
      `|needle|` bytes are not kept: whatever arrives later, the first occurrence just shifts. */
  lemma FindDrop(a: string, b: string, needle: string, k: nat)
    requires Find(a, needle).None?
    requires k + |needle| <= |a| + 1 || k == 0
    requires k <= |a|
    ensures Find(a + b, needle) ==
            match Find(a[k..] + b, needle)
            case None => None
            case Some(i) => Some(k + i)
  {
    hide OccursAt;
    var whole := a + b;
    assert whole[k..] == a[k..] + b;
    forall j: nat | j < k ensures !OccursAt(whole, needle, j) {
      OccursAtPrefix(a, b, needle, j);
    }
    hide Find;
    FindShift(whole, needle, k);
  }

  /** A search that finds nothing before `k` may as well start at `k`. */
  lemma FindShift(hay: string, needle: string, k: nat)
    requires k <= |hay|
    requires forall j: nat | j < k :: !OccursAt(hay, needle, j)
    ensures Find(hay, needle) ==
            match Find(hay[k..], needle)
            case None => None
            case Some(i) => Some(k + i)
  {
    var r := Find(hay, needle);
    if r.Some? {
      OccursAtDrop(hay, needle, k, r.value - k);
      forall j: nat | j < r.value - k ensures !OccursAt(hay[k..], needle, j) {
        OccursAtDrop(hay, needle, k, j);
      }
      FindIs(hay[k..], needle, r.value - k);
    } else {
      forall j: nat ensures !OccursAt(hay[k..], needle, j) {
        OccursAtDrop(hay, needle, k, j);
      }
    }
  }

  predicate IsBlank(c: char) { c == ' ' || c == '\t' }

  function TrimFront(s: string): string {
    if s != "" && IsBlank(s[0]) then TrimFront(s[1..]) else s
  }

  function TrimBack(s: string): string {
    if s != "" && IsBlank(s[|s| - 1]) then TrimBack(s[..|s| - 1]) else s
  }

  /** `s` without leading and trailing spaces and tabs. */
  function Trim(s: string): (r: string)
    ensures |r| <= |s|
  {
    TrimLength(s);
    TrimBack(TrimFront(s))
  }

  lemma TrimLength(s: string)
    ensures |TrimFront(s)| <= |s|
    ensures |TrimBack(TrimFront(s))| <= |s|
  {
    TrimBackLength(TrimFront(s));
  }

  lemma TrimBackLength(s: string)
    ensures |TrimBack(s)| <= |s|
  {
  }

  /** A text that neither starts nor ends with a blank is its own trim. */
  lemma TrimIdentity(s: string)
    requires s == "" || (!IsBlank(s[0]) && !IsBlank(s[|s| - 1]))
    ensures Trim(s) == s
  {
  }

  /** Spaces and tabs only. */
  predicate Blanks(s: string) { forall c <- s :: c == ' ' || c == '\t' }

  lemma {:induction false} FrontBlanks(pad: string, s: string)
    requires Blanks(pad)
    ensures TrimFront(pad + s) == TrimFront(s)
    decreases |pad|
  {
    if pad == "" {
      assert pad + s == s;
    } else {
      assert pad[0] in pad && forall c <- pad[1..] :: c in pad;
      FrontBlanks(pad[1..], s);
      assert (pad + s)[1..] == pad[1..] + s;
    }
  }

  lemma {:induction false} BackBlanks(s: string, pad: string)
    requires Blanks(pad)
    ensures TrimBack(s + pad) == TrimBack(s)
    decreases |pad|
  {
    if pad == "" {
      assert s + pad == s;
    } else {
      var n := |pad| - 1;
      assert pad[n] in pad && forall c <- pad[..n] :: c in pad;
      BackBlanks(s, pad[..n]);
      assert (s + pad)[..|s + pad| - 1] == s + pad[..n];
    }
  }

  /** Blanks around a text go, and nothing else. */
  lemma TrimPads(front: string, s: string, back: string)
    requires Blanks(front) && Blanks(back)
    requires s == "" || (s[0] != ' ' && s[0] != '\t' && s[|s| - 1] != ' ' && s[|s| - 1] != '\t')
    ensures Trim(front + (s + back)) == s
  {
    FrontBlanks(front, s + back);
    if s == "" {
      assert s + back == back && back + "" == back;
      FrontBlanks(back, "");
    } else {
      BackBlanks(s, back);
      assert (s + back)[0] == s[0];
    }
  }

  method TrimLoop(s: string) returns (r: string)
    ensures r == Trim(s)
  {
    r := s;
    while r != "" && IsBlank(r[0])
      invariant TrimFront(r) == TrimFront(s)
      decreases |r|
    {
      r := r[1..];
    }
    while r != "" && IsBlank(r[|r| - 1])
      invariant TrimBack(r) == TrimBack(TrimFront(s))
      decreases |r|
    {
      r := r[..|r| - 1];
    }
  }

  function Lower(c: char): char {
    if 'A' <= c <= 'Z' then c - 'A' + 'a' else c
  }

  /** ASCII case-insensitive equality, as `boost::beast::iequals`. */
  predicate IEquals(a: string, b: string) {
    |a| == |b| && forall i | 0 <= i < |a| :: Lower(a[i]) == Lower(b[i])
  }

  // ---- Letters, written out ------------------------------------------------------------

  const LOWER := "abcdefghijklmnopqrstuvwxyz"
  const UPPER := "ABCDEFGHIJKLMNOPQRSTUVWXYZ"
  const DIGITS := "0123456789"

  lemma LowerLetters(c: char)
    ensures c in LOWER <==> 'a' <= c <= 'z'
    ensures 'a' <= c <= 'z' ==> LOWER[c as int - 97] == c
  {
  }

  lemma UpperLetters(c: char)
    ensures c in UPPER <==> 'A' <= c <= 'Z'
    ensures 'A' <= c <= 'Z' ==> UPPER[c as int - 65] == c
  {
  }

  lemma DecimalDigits(c: char)
    ensures c in DIGITS <==> '0' <= c <= '9'
  {
    if '0' <= c <= '9' { assert DIGITS[c as int - 48] == c; }
  }

  /** `c` is the `i`-th upper-case letter and `d` the same letter in lower case. */
  predicate CasePair(i: nat, c: char, d: char) {
    i < 26 && c == UPPER[i] && d == LOWER[i]
  }

  /** The same character, or the two cases of one of the 26 letters. */
  ghost predicate SameLetter(c: char, d: char) {
    c == d || exists i: nat :: CasePair(i, c, d) || CasePair(i, d, c)
  }

  lemma SameLetterIsLower(c: char, d: char)
    ensures Lower(c) == Lower(d) <==> SameLetter(c, d)
  {
    hide CasePair;
    if Lower(c) == Lower(d) && c != d {
      if 'A' <= c <= 'Z' { var i := TwoCases(c, d); } else { var i := TwoCases(d, c); }
    }
    if i: nat :| CasePair(i, c, d) || CasePair(i, d, c) {
      if CasePair(i, c, d) { CasesOf(i, c, d); } else { CasesOf(i, d, c); }
    }
  }

  lemma CasesOf(i: nat, c: char, d: char)
    requires CasePair(i, c, d)
    ensures Lower(c) == d && Lower(d) == d
  {
  }

  lemma TwoCases(c: char, d: char) returns (i: nat)
    requires 'A' <= c <= 'Z' && Lower(c) == d
    ensures CasePair(i, c, d)
  {
    i := c as int - 65;
  }

  /** Case-insensitive equality identifies the two cases of the 26 letters and nothing else. */
  lemma IEqualsExactly(a: string, b: string)
    ensures IEquals(a, b) <==> |a| == |b| && forall i | 0 <= i < |a| :: SameLetter(a[i], b[i])
  {
    hide Lower, SameLetter;
    if |a| == |b| {
      forall i | 0 <= i < |a| ensures Lower(a[i]) == Lower(b[i]) <==> SameLetter(a[i], b[i]) { SameLetterIsLower(a[i], b[i]); }
    }
  }
}
