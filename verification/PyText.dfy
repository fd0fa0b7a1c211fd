/** The Python string operations that the models rely on. */
module PyText {
  /** The ASCII part of what `str.isspace` accepts. */
  predicate IsSpace(c: char) {
    c == ' ' || '\t' <= c <= '\r' || '\U{1c}' <= c <= '\U{1f}'
  }

  lemma BlanksAre(c: char)
    ensures IsSpace(c) <==> c in [' ', '\t', '\n', '\r', '\U{b}', '\U{c}', '\U{1c}', '\U{1d}', '\U{1e}', '\U{1f}']
  {
  }

  /** The ASCII part of `s.lower()`. */
  function Lower(s: string): (r: string)
    ensures |r| == |s|
  {
    seq(|s|, i requires 0 <= i < |s| => if 'A' <= s[i] <= 'Z' then s[i] - 'A' + 'a' else s[i])
  }

  function StripLeft(s: string): string {
    if s != "" && IsSpace(s[0]) then StripLeft(s[1..]) else s
  }

  function StripRight(s: string): string {
    if s != "" && IsSpace(s[|s| - 1]) then StripRight(s[..|s| - 1]) else s
  }

  /** `s.strip()` */
  function Strip(s: string): string {
    StripRight(StripLeft(s))
  }

  /** `s.split(sep)` for a one-character separator. */
  function Split(s: string, sep: char): (pieces: seq<string>)
    ensures |pieces| > 0
    ensures forall p :: p in pieces ==> sep !in p && forall c :: c in p ==> c in s
    ensures Join(pieces, [sep]) == s
  {
    SplitFrom(s, sep, 0)
  }

  /** The pieces of `s`, of whose first piece `n` characters have been passed over. */
  function SplitFrom(s: string, sep: char, n: nat): (pieces: seq<string>)
    requires n <= |s| && sep !in s[..n]
    ensures |pieces| > 0
    ensures forall p :: p in pieces ==> sep !in p && forall c :: c in p ==> c in s
    ensures Join(pieces, [sep]) == s
    decreases |s| - n, 1
  {
    if n == |s| then
      assert s[..n] == s;
      [s]
    else if s[n] == sep then
      var rest := SplitFrom(s[n + 1..], sep, 0);
      assert s == s[..n] + ([sep] + s[n + 1..]);
      JoinCons(s[..n], rest, [sep]);
      [s[..n]] + rest
    else
      assert s[..n + 1] == s[..n] + [s[n]];
      SplitFrom(s, sep, n + 1)
  }

  /** `sep.join(pieces)` */
  function Join(pieces: seq<string>, sep: string): string {
    if pieces == [] then ""
    else if |pieces| == 1 then pieces[0]
    else pieces[0] + (sep + Join(pieces[1..], sep))
  }

  lemma JoinCons(first: string, rest: seq<string>, sep: string)
    requires rest != []
    ensures Join([first] + rest, sep) == first + (sep + Join(rest, sep))
  {
    assert ([first] + rest)[1..] == rest;
  }

  lemma {:induction false} JoinAppend(pieces: seq<string>, last: string, sep: string)
    requires pieces != []
    ensures Join(pieces + [last], sep) == Join(pieces, sep) + (sep + last)
  {
    if |pieces| == 1 {
      assert pieces + [last] == [pieces[0], last];
      assert [pieces[0], last][1..] == [last];
    } else {
      JoinAppend(pieces[1..], last, sep);
      assert (pieces + [last])[1..] == pieces[1..] + [last];
      var rest := Join(pieces[1..], sep);
      assert pieces[0] + (sep + (rest + (sep + last))) == (pieces[0] + (sep + rest)) + (sep + last);
    }
  }

  /** The separator shows in a join exactly when there are several pieces. */
  lemma JoinShowsSeparator(pieces: seq<string>, sep: char)
    requires pieces != [] && forall p :: p in pieces ==> sep !in p
    ensures sep in Join(pieces, [sep]) <==> |pieces| > 1
  {
    assert pieces[0] in pieces;
    if |pieces| > 1 {
      assert Join(pieces, [sep])[|pieces[0]|] == sep;
    }
  }

  /** Pieces without the separator are determined by their join. */
  lemma {:induction false} JoinDetermines(a: seq<string>, b: seq<string>, sep: char)
    requires a != [] && b != [] && Join(a, [sep]) == Join(b, [sep])
    requires (forall p :: p in a ==> sep !in p) && (forall p :: p in b ==> sep !in p)
    ensures a == b
  {
    JoinShowsSeparator(a, sep);
    JoinShowsSeparator(b, sep);
    assert a[0] in a && b[0] in b;
    if |a| > 1 {
      FirstPieceDetermined(a[0], Join(a[1..], [sep]), b[0], Join(b[1..], [sep]), sep);
      JoinDetermines(a[1..], b[1..], sep);
      assert a == [a[0]] + a[1..] && b == [b[0]] + b[1..];
    } else {
      assert a == [a[0]] && b == [b[0]];
    }
  }

  /** The piece ends at the first separator. */
  lemma FirstSeparator(p: string, r: string, sep: char, s: string)
    requires s == p + ([sep] + r) && sep !in p
    ensures |p| < |s| && s[|p|] == sep && forall i :: 0 <= i < |p| ==> s[i] != sep
    ensures s[..|p|] == p && s[|p| + 1..] == r
  {
    forall i | 0 <= i < |p| ensures s[i] != sep {
      assert s[i] == p[i] && p[i] in p;
    }
  }

  lemma FirstPieceDetermined(p: string, r: string, q: string, t: string, sep: char)
    requires p + ([sep] + r) == q + ([sep] + t) && sep !in p && sep !in q
    ensures p == q && r == t
  {
    var s := p + ([sep] + r);
    FirstSeparator(p, r, sep, s);
    FirstSeparator(q, t, sep, s);
    assert |p| == |q|;
  }

  lemma {:induction false} JoinConcat(a: seq<string>, b: seq<string>, sep: string)
    requires a != [] && b != []
    ensures Join(a + b, sep) == Join(a, sep) + (sep + Join(b, sep))
  {
    if |a| == 1 {
      assert a == [a[0]];
      JoinCons(a[0], b, sep);
    } else {
      JoinConcat(a[1..], b, sep);
      assert (a + b)[1..] == a[1..] + b;
      assert a[0] + (sep + (Join(a[1..], sep) + (sep + Join(b, sep))))
          == (a[0] + (sep + Join(a[1..], sep))) + (sep + Join(b, sep));
    }
  }

  /** Splitting undoes joining. */
  lemma SplitOfJoin(pieces: seq<string>, sep: char)
    requires pieces != [] && forall p :: p in pieces ==> sep !in p
    ensures Split(Join(pieces, [sep]), sep) == pieces
  {
    JoinDetermines(Split(Join(pieces, [sep]), sep), pieces, sep);
  }

  ghost predicate Blank(s: string) {
    forall c :: c in s ==> IsSpace(c)
  }

  /** Nothing to strip on either side. */
  predicate Trimmed(s: string) {
    s != "" ==> !IsSpace(s[0]) && !IsSpace(s[|s| - 1])
  }

  lemma {:induction false} StripLeftPadded(left: string, s: string)
    requires Blank(left) && (s != "" ==> !IsSpace(s[0]))
    ensures StripLeft(left + s) == s
  {
    if left == "" {
      assert left + s == s;
    } else {
      assert left[0] in left;
      assert (left + s)[1..] == left[1..] + s;
      StripLeftPadded(left[1..], s);
    }
  }

  lemma {:induction false} StripRightPadded(s: string, right: string)
    requires Blank(right) && (s != "" ==> !IsSpace(s[|s| - 1]))
    ensures StripRight(s + right) == s
  {
    if right == "" {
      assert s + right == s;
    } else {
      var n := |right| - 1;
      assert right[n] in right;
      assert (s + right)[..|s + right| - 1] == s + right[..n];
      StripRightPadded(s, right[..n]);
    }
  }

  /** Stripping takes away the blanks around a text, and nothing of the text. */
  lemma StripPadded(left: string, s: string, right: string)
    requires Blank(left) && Trimmed(s) && Blank(right)
    ensures Strip(left + s + right) == s
  {
    assert left + s + right == left + (s + right);
    if s == "" {
      assert left + (s + right) == (left + right) + "";
      assert Blank(left + right);
      StripLeftPadded(left + right, "");
    } else {
      StripLeftPadded(left, s + right);
      StripRightPadded(s, right);
    }
  }

  /** Nothing to strip. */
  lemma StripIsIdentity(s: string)
    requires s != "" ==> !IsSpace(s[0]) && !IsSpace(s[|s| - 1])
    ensures Strip(s) == s
  {
  }

  function NotEmpty(): string -> bool {
    (s: string) => s != ""
  }

  /** `str(n)` of a natural number. */
  function Digits(n: nat): string {
    if n < 10 then ['0' + n as char] else Digits(n / 10) + ['0' + (n % 10) as char]
  }

  /** The number that decimal digits stand for. */
  function ValueOf(digits: string): int {
    if digits == "" then 0
    else 10 * ValueOf(digits[..|digits| - 1]) + (digits[|digits| - 1] as int - '0' as int)
  }

  /** Reading the digits gives the number back, so different numbers have different digits. */
  lemma {:induction false} DigitsRoundTrip(n: nat)
    ensures ValueOf(Digits(n)) == n
  {
    if n < 10 {
      assert Digits(n)[..0] == "";
    } else {
      DigitsRoundTrip(n / 10);
      var d := Digits(n);
      assert d[..|d| - 1] == Digits(n / 10);
    }
  }
}
