/** String primitives shared by the model: trimming, ASCII case folding, comma
    lists and the byte order used by `sort.Strings`. */
module Text {

  /** White space as `strings.TrimSpace` sees it. */
  predicate IsSpace(c: char) {
    || '\t' <= c <= '\r' || c == ' ' || c == '\U{0085}' || c == '\U{00A0}' || c == '\U{1680}'
    || '\U{2000}' <= c <= '\U{200A}' || c == '\U{2028}' || c == '\U{2029}' || c == '\U{202F}'
    || c == '\U{205F}' || c == '\U{3000}'
  }

  lemma SpaceCodes(c: char)
    ensures IsSpace(c) <==>
            || 9 <= c as int <= 13 || 0x2000 <= c as int <= 0x200A
            || c as int in {0x20, 0x85, 0xA0, 0x1680, 0x2028, 0x2029, 0x202F, 0x205F, 0x3000}
  {
  }

  predicate AllSpace(s: string) {
    forall c | c in s :: IsSpace(c)
  }

  predicate Trimmed(s: string) {
    s == [] || (!IsSpace(s[0]) && !IsSpace(s[|s| - 1]))
  }

  function TrimLeft(s: string): string {
    if s != [] && IsSpace(s[0]) then TrimLeft(s[1..]) else s
  }

  function TrimRight(s: string): string {
    if s != [] && IsSpace(s[|s| - 1]) then TrimRight(s[..|s| - 1]) else s
  }

  /** `strings.TrimSpace`. */
  function Trim(s: string): string {
    TrimRight(TrimLeft(s))
  }

  lemma {:induction false} TrimLeftParts(s: string) returns (pre: string)
    ensures AllSpace(pre) && s == pre + TrimLeft(s)
    ensures TrimLeft(s) == [] || !IsSpace(TrimLeft(s)[0])
  {
    pre := [];
    if s != [] && IsSpace(s[0]) {
      var rest := TrimLeftParts(s[1..]);
      pre := [s[0]] + rest;
    }
  }

  lemma {:induction false} TrimRightParts(s: string) returns (post: string)
    ensures AllSpace(post) && s == TrimRight(s) + post
    ensures TrimRight(s) == [] || (!IsSpace(TrimRight(s)[|TrimRight(s)| - 1]) && TrimRight(s)[0] == s[0])
  {
    post := [];
    if s != [] && IsSpace(s[|s| - 1]) {
      var rest := TrimRightParts(s[..|s| - 1]);
      post := rest + [s[|s| - 1]];
    }
  }

  lemma TrimTrimmed(s: string)
    ensures Trimmed(Trim(s))
  {
    var pre := TrimLeftParts(s);
    var post := TrimRightParts(TrimLeft(s));
  }

  lemma TrimFixed(s: string)
    requires Trimmed(s)
    ensures Trim(s) == s
  {
  }

  /** `strings.TrimSpace(s) == ""`, as `BlankTrims` shows. */
  predicate IsBlank(s: string) {
    AllSpace(s)
  }

  /** A value written through `nullIfEmpty` and read back through `COALESCE(.., '')`. */
  function NullIfBlank(s: string): string {
    if IsBlank(s) then "" else s
  }

  /** Trimming finds the one core that is left when white space is peeled off both ends. */
  lemma TrimUnique(pre: string, core: string, post: string)
    requires AllSpace(pre) && AllSpace(post) && Trimmed(core)
    ensures Trim(pre + (core + post)) == core
  {
    TrimLeftPad(pre, core + post);
    if core == [] {
      assert core + post == post;
      TrimLeftAll(post);
    } else {
      TrimRightPad(core, post);
    }
  }

  lemma {:induction false} TrimLeftPad(pre: string, s: string)
    requires AllSpace(pre)
    ensures TrimLeft(pre + s) == TrimLeft(s)
  {
    if pre == [] {
      assert pre + s == s;
    } else {
      assert (pre + s)[0] == pre[0] && (pre + s)[1..] == pre[1..] + s;
      TrimLeftPad(pre[1..], s);
    }
  }

  lemma {:induction false} TrimLeftAll(s: string)
    requires AllSpace(s)
    ensures TrimLeft(s) == []
  {
    if s != [] {
      TrimLeftAll(s[1..]);
    }
  }

  lemma {:induction false} TrimRightPad(s: string, post: string)
    requires AllSpace(post) && (s == [] || !IsSpace(s[|s| - 1]))
    ensures TrimRight(s + post) == s
  {
    if post == [] {
      assert s + post == s;
    } else {
      var n := |post| - 1;
      assert (s + post)[|s + post| - 1] == post[n];
      assert (s + post)[..|s + post| - 1] == s + post[..n];
      TrimRightPad(s, post[..n]);
    }
  }

  /** A string is its trimmed core between two runs of white space. */
  lemma TrimParts(s: string) returns (pre: string, post: string)
    ensures AllSpace(pre) && AllSpace(post)
    ensures s == pre + (Trim(s) + post)
  {
    pre := TrimLeftParts(s);
    post := TrimRightParts(TrimLeft(s));
  }

  lemma AllSpaceConcat(a: string, b: string)
    requires AllSpace(a) && AllSpace(b)
    ensures AllSpace(a + b)
  {
  }

  lemma BlankTrims(s: string)
    ensures IsBlank(s) <==> Trim(s) == ""
  {
    var pre, post := TrimParts(s);
    if IsBlank(s) {
      TrimLeftAll(s);
    } else if Trim(s) == "" {
      AllSpaceConcat(pre, post);
    }
  }

  /** Padding a name changes nothing once it is trimmed. */
  lemma TrimPadding(pre: string, s: string, post: string)
    requires AllSpace(pre) && AllSpace(post)
    ensures Trim(pre + s + post) == Trim(s)
  {
    var a, b := TrimParts(s);
    TrimTrimmed(s);
    AllSpaceConcat(pre, a);
    AllSpaceConcat(b, post);
    Regroup(pre, a, Trim(s), b, post);
    TrimUnique(pre + a, Trim(s), b + post);
  }

  lemma Regroup(p: string, a: string, c: string, b: string, q: string)
    ensures p + (a + (c + b)) + q == (p + a) + (c + (b + q))
  {
  }

  /** `strings.ToLower` on ASCII letters. */
  function LowerChar(c: char): char {
    if 'A' <= c <= 'Z' then c - 'A' + 'a' else c
  }

  function ToLower(s: string): (r: string)
    ensures |r| == |s|
    ensures forall i | 0 <= i < |s| :: r[i] == LowerChar(s[i])
  {
    seq(|s|, i requires 0 <= i < |s| => LowerChar(s[i]))
  }

  /** Capital letters are lower-cased by their codes; every other character stays. */
  lemma LowerCharExact(c: char)
    ensures LowerChar(c) as int == if 65 <= c as int <= 90 then c as int + 32 else c as int
    ensures ToLower("AMZ[@`amz") == "amz[@`amz"
  {
  }

  predicate IsLower(s: string) {
    ToLower(s) == s
  }

  lemma LowerTrimmed(s: string)
    ensures Trimmed(ToLower(s)) == Trimmed(s)
    ensures IsLower(ToLower(s))
  {
  }

  /** The normal form of one name: trimmed, then lower-cased. */
  function NormalName(s: string): string {
    ToLower(Trim(s))
  }

  predicate IsNormal(s: string) {
    Trimmed(s) && IsLower(s)
  }

  lemma NormalNameIsNormal(s: string)
    ensures IsNormal(NormalName(s))
    ensures IsNormal(s) ==> NormalName(s) == s
  {
    TrimTrimmed(s);
    LowerTrimmed(Trim(s));
    if IsNormal(s) {
      TrimFixed(s);
    }
  }

  lemma LowerAllSpace(s: string)
    requires AllSpace(s)
    ensures AllSpace(ToLower(s))
  {
    forall c | c in ToLower(s) ensures IsSpace(c) {
      var i :| 0 <= i < |s| && ToLower(s)[i] == c;
      assert s[i] in s;
    }
  }

  /** A name keeps its normal form under any re-casing and any padding. */
  lemma NormalNamePadCase(pre: string, s: string, t: string, post: string)
    requires AllSpace(pre) && AllSpace(post) && ToLower(s) == ToLower(t)
    ensures NormalName(pre + s + post) == NormalName(t)
  {
    TrimPadding(pre, s, post);
    LowerTrim(s);
    LowerTrim(t);
  }

  lemma LowerConcat(a: string, b: string)
    ensures ToLower(a + b) == ToLower(a) + ToLower(b)
  {
  }

  /** Lower-casing and trimming commute. */
  lemma LowerTrim(s: string)
    ensures ToLower(Trim(s)) == Trim(ToLower(s))
  {
    var a, b := TrimParts(s);
    LowerConcat(a, Trim(s) + b);
    LowerConcat(Trim(s), b);
    LowerAllSpace(a);
    LowerAllSpace(b);
    TrimTrimmed(s);
    LowerTrimmed(Trim(s));
    TrimUnique(ToLower(a), ToLower(Trim(s)), ToLower(b));
  }

  predicate HasPrefix(s: string, p: string) {
    p <= s
  }

  predicate HasSuffix(s: string, p: string) {
    |p| <= |s| && s[|s| - |p|..] == p
  }

  predicate Contains(s: string, p: string) {
    p <= s || (s != [] && Contains(s[1..], p))
  }

  lemma PartsTail(s: string, pre: string, p: string, post: string)
    requires s == pre + (p + post) && !(p <= s)
    ensures s[1..] == pre[1..] + (p + post)
  {
    assert pre == [] ==> p <= p + post;
  }

  lemma NoParts(p: string)
    requires p != []
    ensures forall pre: string, post: string :: [] != pre + (p + post)
  {
    forall pre: string, post: string ensures [] != pre + (p + post) {
      assert |pre + (p + post)| >= |p|;
    }
  }

  /** A string contains the strings that stand between two of its parts. */
  lemma {:induction false} ContainsExact(s: string, p: string)
    ensures Contains(s, p) <==> exists pre: string, post: string :: s == pre + (p + post)
  {
    if p <= s {
      assert s == [] + (p + s[|p|..]);
    } else if s != [] {
      ContainsExact(s[1..], p);
      if pre: string, post: string :| s[1..] == pre + (p + post) {
        assert s == ([s[0]] + pre) + (p + post);
      }
      if pre: string, post: string :| s == pre + (p + post) {
        PartsTail(s, pre, p, post);
      }
    } else {
      NoParts(p);
    }
  }

  /** Lexicographic order by code point, which is the byte order of UTF-8. */
  predicate Leq(a: string, b: string) {
    a == [] || (b != [] && (a[0] < b[0] || (a[0] == b[0] && Leq(a[1..], b[1..]))))
  }

  predicate Less(a: string, b: string) {
    a != b && Leq(a, b)
  }

  /** The order is that of a dictionary: a beginning comes first, and otherwise the first
      difference decides. */
  lemma {:induction false} LeqExact(a: string, b: string)
    ensures Leq(a, b) <==> a <= b || exists i :: DiffersAt(a, b, i) && a[i] < b[i]
  {
    if a != [] && b != [] && a[0] == b[0] {
      LeqExact(a[1..], b[1..]);
      assert a == [a[0]] + a[1..] && b == [b[0]] + b[1..];
      forall i | 0 < i < |a| && i < |b| ensures DiffersAt(a, b, i) <==> DiffersAt(a[1..], b[1..], i - 1) {
        DiffersNext(a, b, i);
      }
      if j :| DiffersAt(a[1..], b[1..], j) && a[1..][j] < b[1..][j] {
        assert DiffersAt(a, b, j + 1);
      }
    } else if a != [] && b != [] {
      assert DiffersAt(a, b, 0);
      if i :| DiffersAt(a, b, i) && a[i] < b[i] {
        assert i > 0 ==> a[..i][0] == b[..i][0];
      }
    }
  }

  lemma DiffersNext(a: string, b: string, i: int)
    requires 0 < i < |a| && i < |b| && a[0] == b[0]
    ensures DiffersAt(a, b, i) <==> DiffersAt(a[1..], b[1..], i - 1)
  {
    assert a[..i] == [a[0]] + a[1..][..i - 1] && b[..i] == [b[0]] + b[1..][..i - 1];
    assert a[..i][1..] == a[1..][..i - 1] && b[..i][1..] == b[1..][..i - 1];
  }

  /** `i` is the first place at which two strings differ. */
  predicate DiffersAt(a: string, b: string, i: int) {
    0 <= i < |a| && i < |b| && a[..i] == b[..i] && a[i] != b[i]
  }

  lemma {:induction false} LeqTotal(a: string, b: string)
    ensures Leq(a, b) || Leq(b, a)
  {
    if a != [] && b != [] && a[0] == b[0] {
      LeqTotal(a[1..], b[1..]);
    }
  }

  lemma {:induction false} LeqAntisymmetric(a: string, b: string)
    requires Leq(a, b) && Leq(b, a)
    ensures a == b
  {
    if a != [] {
      LeqAntisymmetric(a[1..], b[1..]);
      assert a == [a[0]] + a[1..] && b == [b[0]] + b[1..];
    }
  }

  lemma {:induction false} LeqTransitive(a: string, b: string, c: string)
    requires Leq(a, b) && Leq(b, c)
    ensures Leq(a, c)
  {
    if a != [] && a[0] == b[0] == c[0] {
      LeqTransitive(a[1..], b[1..], c[1..]);
    }
  }

  lemma LessTransitive(a: string, b: string, c: string)
    requires Less(a, b) && Leq(b, c)
    ensures Less(a, c)
  {
    LeqTransitive(a, b, c);
    if a == c {
      LeqAntisymmetric(a, b);
    }
  }
}
