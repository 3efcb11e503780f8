/**
 * The pieces of Python's string and path handling that the duplicate finder
 * leans on: `str.lower`, `os.path.splitext` (POSIX flavour), `os.path.join`,
 * the base name, and the decimal rendering used by f-strings.
 */
module PathText {

  /** Python's full lower-case mapping of one character, restricted to the
      characters whose lower-case form contains an ASCII character or has a
      different length: A-Z, KELVIN SIGN (U+212A, lowers to 'k') and LATIN
      CAPITAL LETTER I WITH DOT ABOVE (U+0130, lowers to two characters).
      Every other character is kept as it is; its real lower-case form is
      never an ASCII character, so no membership test or comparison against
      an ASCII constant made in this model can tell the difference. Text
      that carries the lowered string itself, such as an error message,
      differs from Python's for those characters. */
  function LowerChar(c: char): (r: string)
    ensures 1 <= |r| <= 2
    ensures |r| == 2 <==> c == '\U{0130}'
  {
    if 'A' <= c <= 'Z' then [(c as int + 32) as char]
    else if c == '\U{212A}' then "k"
    else if c == '\U{0130}' then "i\U{0307}"
    else [c]
  }

  /** `s.lower()` */
  function Lower(s: string): (r: string)
    ensures |r| >= |s|
  {
    if s == [] then [] else Lower(s[..|s| - 1]) + LowerChar(s[|s| - 1])
  }

  lemma {:induction false} LowerAppend(a: string, b: string)
    ensures Lower(a + b) == Lower(a) + Lower(b)
    decreases |b|
  {
    if b == [] {
      assert a + b == a;
    } else {
      var b' := b[..|b| - 1];
      assert (a + b)[..|a + b| - 1] == a + b';
      assert (a + b)[|a + b| - 1] == b[|b| - 1];
      LowerAppend(a, b');
    }
  }

  /** Lower-casing keeps the length unless the string holds U+0130. */
  lemma {:induction false} LowerLength(s: string)
    requires '\U{0130}' !in s
    ensures |Lower(s)| == |s|
  {
    if s != [] {
      assert s[|s| - 1] in s;
      assert forall c :: c in s[..|s| - 1] ==> c in s;
      LowerLength(s[..|s| - 1]);
    }
  }

  lemma LowerCharFixed(c: char)
    ensures Lower(LowerChar(c)) == LowerChar(c)
  {
    var lc := LowerChar(c);
    if c == '\U{0130}' {
      assert lc[..1] == "i" && "i"[..0] == [];
      assert LowerChar('i') == "i" && LowerChar('\U{0307}') == "\U{0307}";
    } else {
      assert lc[..0] == [];
    }
  }

  /** No character of a lower-cased string is changed by lower-casing again. */
  lemma {:induction false} LowerIdempotent(s: string)
    ensures Lower(Lower(s)) == Lower(s)
  {
    if s != [] {
      var s' := s[..|s| - 1];
      LowerIdempotent(s');
      LowerAppend(Lower(s'), LowerChar(s[|s| - 1]));
      LowerCharFixed(s[|s| - 1]);
    }
  }

  /** Index of the last occurrence of `c` in `s`, or -1 (`str.rfind`). */
  function RFind(s: string, c: char): (r: int)
    ensures -1 <= r < |s|
    ensures r >= 0 ==> s[r] == c
    ensures forall k :: r < k < |s| ==> s[k] != c
  {
    if s == [] then -1
    else if s[|s| - 1] == c then |s| - 1
    else RFind(s[..|s| - 1], c)
  }

  /** The last path component: everything after the last '/'. */
  function Basename(p: string): (b: string)
    ensures '/' !in b
    ensures |b| <= |p| && b == p[|p| - |b|..]
  {
    p[RFind(p, '/') + 1..]
  }

  /** The extension `os.path.splitext(p)[1]` computes: from the last dot of
      the base name to the end, provided some character before that dot is
      not a dot (leading dots do not start an extension); "" otherwise. */
  function Ext(p: string): (e: string)
    ensures e == [] || (e[0] == '.' && '.' !in e[1..] && '/' !in e)
    ensures |e| <= |p| && e == p[|p| - |e|..]
  {
    var b := Basename(p);
    var d := RFind(b, '.');
    if d > 0 && !AllDots(b[..d]) then b[d..] else []
  }

  /** Whether every character of `s` is a dot. */
  predicate AllDots(s: string)
  {
    s == [] || (s[|s| - 1] == '.' && AllDots(s[..|s| - 1]))
  }

  /** A string with a character other than a dot is not all dots. */
  lemma {:induction false} NotAllDots(s: string, k: nat)
    requires k < |s| && s[k] != '.'
    ensures !AllDots(s)
  {
    var n := |s| - 1;
    if k < n {
      assert s[..n][k] == s[k];
      NotAllDots(s[..n], k);
    }
  }

  /** The extension of a path is that of its base name: dots in directory
      names never start one. */
  lemma ExtOfChild(dir: string, name: string)
    requires '/' !in name
    ensures Ext(dir + "/" + name) == Ext(name)
  {
    var p := dir + "/" + name;
    assert p[|dir|] == '/';
    assert forall k :: |dir| < k < |p| ==> p[k] == name[k - |dir| - 1];
    assert RFind(p, '/') == |dir|;
    assert Basename(p) == name;
    assert RFind(name, '/') == -1;
    assert Basename(name) == name;
  }

  /** A base name made of one leading dot and no other dot has no extension. */
  lemma LeadingDotIsNoExtension(name: string)
    requires '/' !in name && '.' !in name
    ensures Ext("." + name) == ""
  {
    var p := "." + name;
    assert forall k :: 0 < k < |p| ==> p[k] == name[k - 1];
    assert '/' !in p;
    assert RFind(p, '/') == -1;
    assert Basename(p) == p;
    assert p[0] == '.';
  }

  /** `os.path.join(a, b)` for POSIX paths. */
  function Join(a: string, b: string): (r: string)
    ensures |b| <= |r| && r[|r| - |b|..] == b
  {
    if |b| > 0 && b[0] == '/' then b
    else if a == [] || a[|a| - 1] == '/' then a + b
    else a + "/" + b
  }

  function DigitChar(d: int): (c: char)
    requires 0 <= d < 10
    ensures '0' <= c <= '9'
  {
    ('0' as int + d) as char
  }

  /** Decimal digits of a non-negative integer, as `str(n)` renders them. */
  function NatToString(n: nat): (s: string)
    ensures |s| >= 1 && forall k :: 0 <= k < |s| ==> '0' <= s[k] <= '9'
    ensures n >= 10 <==> |s| >= 2
  {
    if n < 10 then [DigitChar(n)] else NatToString(n / 10) + [DigitChar(n % 10)]
  }

  /** `str(n)` / `f"{n}"` for any integer. */
  function IntToString(n: int): (s: string)
    ensures |s| >= 1
    ensures s[0] == '-' <==> n < 0
  {
    if n < 0 then "-" + NatToString(-n) else NatToString(n)
  }

  /** Different numbers are rendered differently. */
  lemma {:induction false} NatToStringInjective(m: nat, n: nat)
    requires NatToString(m) == NatToString(n)
    ensures m == n
  {
    if m >= 10 && n >= 10 {
      var sm, sn := NatToString(m), NatToString(n);
      assert sm[..|sm| - 1] == NatToString(m / 10);
      assert sn[..|sn| - 1] == NatToString(n / 10);
      NatToStringInjective(m / 10, n / 10);
      assert DigitChar(m % 10) == sm[|sm| - 1] == sn[|sn| - 1] == DigitChar(n % 10);
    }
  }
}
