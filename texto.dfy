/** The pieces of Python's `str` and `pathlib` behaviour that the models rely on. */
module Texto {

  import opened Comun

  /** The characters for which Python's `str.isspace()` holds, hence those `str.strip()` removes. */
  predicate EsEspacio(c: char)
  {
    var n := c as int;
    n == 0x20 || 0x09 <= n <= 0x0D || 0x1C <= n <= 0x1F || n == 0x85 || n == 0xA0
    || n == 0x1680 || 0x2000 <= n <= 0x200A || n == 0x2028 || n == 0x2029
    || n == 0x202F || n == 0x205F || n == 0x3000
  }

  /** `not s.strip()`: the string is empty or made only of whitespace. */
  predicate EnBlanco(s: string)
  {
    s == [] || (EsEspacio(s[0]) && EnBlanco(s[1..]))
  }

  /** A string is blank exactly when every one of its characters is whitespace. */
  lemma {:induction false} EnBlancoSiYSoloSi(s: string)
    ensures EnBlanco(s) <==> forall i :: 0 <= i < |s| ==> EsEspacio(s[i])
  {
    if s != [] {
      EnBlancoSiYSoloSi(s[1..]);
      assert forall i :: 1 <= i < |s| ==> s[i] == s[1..][i - 1];
    }
  }

  /** The capital letters of the Latin-1 range: the ASCII ones and those from 'À' to 'Þ'
      except the multiplication sign. */
  predicate MayusculaLatina(c: char)
  {
    'A' <= c <= 'Z' || (0xC0 <= c as int <= 0xDE && c as int != 0xD7)
  }

  /** `c.lower()` for the Latin-1 range: each capital moves up by 0x20 to its lower-case
      letter; every other character stays as it is. */
  function Minuscula(c: char): (r: char)
    ensures r == c <==> !MayusculaLatina(c)
    ensures !MayusculaLatina(r)
    ensures MayusculaLatina(c) ==> MinusculaLatina(r) && MayusculaDe(r) == [c]
  {
    if MayusculaLatina(c) then (c as int + 0x20) as char else c
  }

  /** Lower case of one character as SQL's `lower()` folds it: ASCII letters only. */
  function MinusculaAscii(c: char): (r: char)
    ensures r == c <==> !('A' <= c <= 'Z')
    ensures 'A' <= c <= 'Z' ==> 'a' <= r <= 'z' && r as int == c as int + 0x20
  {
    if 'A' <= c <= 'Z' then (c as int + 0x20) as char else c
  }

  /** The lower-case letters of the Latin-1 range: the ASCII ones, the micro sign and
      those from 'ß' to 'ÿ' except the division sign. */
  predicate MinusculaLatina(c: char)
  {
    'a' <= c <= 'z' || c as int == 0xB5 || (0xDF <= c as int <= 0xFF && c as int != 0xF7)
  }

  /** `c.upper()` for the Latin-1 range: the ASCII and accented lower-case letters move
      down by 0x20, 'ÿ' becomes U+0178, the micro sign becomes the Greek capital mu
      (U+039C), and 'ß' becomes "SS"; every other character stays as it is. */
  function MayusculaDe(c: char): (r: string)
    ensures 1 <= |r| <= 2
    ensures r == [c] <==> !MinusculaLatina(c)
    ensures |r| == 2 <==> c as int == 0xDF
    ensures c as int == 0xDF ==> r == "SS"
    ensures c as int == 0xFF ==> r == [0x178 as char]
    ensures c as int == 0xB5 ==> r == [0x39C as char]
    ensures 'a' <= c <= 'z' || (0xE0 <= c as int <= 0xFE && c as int != 0xF7) ==> r == [(c as int - 0x20) as char]
  {
    if 'a' <= c <= 'z' || (0xE0 <= c as int <= 0xFE && c as int != 0xF7) then [(c as int - 0x20) as char]
    else if c as int == 0xDF then "SS"
    else if c as int == 0xFF then [0x178 as char]
    else if c as int == 0xB5 then [0x39C as char]
    else [c]
  }

  /** Upper-casing again changes nothing: every character of an upper case is its own
      upper case. */
  lemma {:induction false} MayusculaIdempotente(c: char)
    ensures forall i :: 0 <= i < |MayusculaDe(c)| ==> MayusculaDe(MayusculaDe(c)[i]) == [MayusculaDe(c)[i]]
  {
    var r := MayusculaDe(c);
    forall i | 0 <= i < |r| ensures !MinusculaLatina(r[i]) {
    }
  }

  /** `s.lower()`, character by character. */
  function Minusculas(s: string): (r: string)
    ensures |r| == |s|
    ensures forall i :: 0 <= i < |s| ==> r[i] == Minuscula(s[i])
  {
    seq(|s|, i requires 0 <= i < |s| => Minuscula(s[i]))
  }

  /** SQL's `lower(s)`, character by character. */
  function MinusculasAscii(s: string): (r: string)
    ensures |r| == |s|
    ensures forall i :: 0 <= i < |s| ==> r[i] == MinusculaAscii(s[i])
  {
    seq(|s|, i requires 0 <= i < |s| => MinusculaAscii(s[i]))
  }

  /** `s.startswith(p)` */
  predicate EmpiezaCon(s: string, p: string)
  {
    |p| <= |s| && s[..|p|] == p
  }

  /** `s.endswith(p)` */
  predicate TerminaCon(s: string, p: string)
  {
    |p| <= |s| && s[|s| - |p|..] == p
  }

  /** `t in s` for strings: `t` occurs somewhere in `s`. */
  predicate Contiene(s: string, t: string)
  {
    exists i :: 0 <= i <= |s| - |t| && ApareceEn(s, t, i)
  }

  /** `t` occurs in `s` starting at index `i`. */
  predicate ApareceEn(s: string, t: string, i: int)
  {
    0 <= i <= |s| - |t| && s[i..i + |t|] == t
  }

  /** Lower-casing keeps, at the same place, an occurrence of a text without capitals. */
  lemma MinusculasConservaMinusculas(s: string, t: string, i: int)
    requires ApareceEn(s, t, i)
    requires forall j :: 0 <= j < |t| ==> !MayusculaLatina(t[j])
    ensures ApareceEn(Minusculas(s), t, i)
  {
    var m := Minusculas(s);
    forall j | 0 <= j < |t|
      ensures m[i + j] == t[j]
    {
      assert s[i + j] == s[i..i + |t|][j];
    }
    assert m[i..i + |t|] == t;
  }

  /** `s.rfind(c)`: the index of the last `c` in `s`, or -1. */
  function UltimoIndice(s: string, c: char): (r: int)
    ensures -1 <= r < |s|
    ensures r >= 0 ==> s[r] == c
    ensures forall j :: r < j < |s| ==> s[j] != c
  {
    if s == [] then -1
    else if s[|s| - 1] == c then |s| - 1
    else UltimoIndice(s[..|s| - 1], c)
  }

  /** `s.find(c)`: the index of the first `c` in `s`, or -1. */
  function PrimerIndice(s: string, c: char): (r: int)
    ensures -1 <= r < |s|
    ensures r >= 0 ==> s[r] == c
    ensures forall j :: 0 <= j < |s| && (r < 0 || j < r) ==> s[j] != c
  {
    if s == [] then -1
    else if s[0] == c then 0
    else
      var k := PrimerIndice(s[1..], c);
      if k < 0 then -1 else k + 1
  }

  /** The first `n` characters of the path end with a "." component: they are "." or end
      with "/.". */
  predicate PuntoFinalEn(ruta: string, n: nat)
    requires n <= |ruta|
  {
    n > 0 && ruta[n - 1] == '.' && (n == 1 || ruta[n - 2] == '/')
  }

  predicate PuntoFinal(ruta: string)
  {
    PuntoFinalEn(ruta, |ruta|)
  }

  /** How much of the first `n` characters is left once the components `PurePath` drops
      at the end are gone: a trailing '/' (an empty component) and a trailing "." (the
      current directory), as often as they occur. */
  function LargoSinFinal(ruta: string, n: nat): (k: nat)
    requires n <= |ruta|
    ensures k <= n
  {
    if n > 0 && (ruta[n - 1] == '/' || PuntoFinalEn(ruta, n)) then LargoSinFinal(ruta, n - 1) else n
  }

  /** The path without the trailing components `PurePath` drops. */
  function SinFinal(ruta: string): (r: string)
    ensures EmpiezaCon(ruta, r)
  {
    ruta[..LargoSinFinal(ruta, |ruta|)]
  }

  /** Where the two paths agree on their first `n` characters, they keep as much of them. */
  lemma {:induction false} LargoSinFinalPrefijo(s: string, t: string, n: nat)
    requires n <= |s| && n <= |t| && s[..n] == t[..n]
    ensures LargoSinFinal(s, n) == LargoSinFinal(t, n)
    decreases n
  {
    if n > 0 {
      assert s[n - 1] == s[..n][n - 1] && t[n - 1] == t[..n][n - 1];
      if n > 1 {
        assert s[n - 2] == s[..n][n - 2] && t[n - 2] == t[..n][n - 2];
      }
      assert s[..n - 1] == s[..n][..n - 1] && t[..n - 1] == t[..n][..n - 1];
      LargoSinFinalPrefijo(s, t, n - 1);
    }
  }

  lemma {:induction false} LargoSinFinalTermina(ruta: string, n: nat)
    requires n <= |ruta|
    ensures var k := LargoSinFinal(ruta, n); k == 0 || (ruta[k - 1] != '/' && !PuntoFinalEn(ruta, k))
    decreases n
  {
    if n > 0 && (ruta[n - 1] == '/' || PuntoFinalEn(ruta, n)) {
      LargoSinFinalTermina(ruta, n - 1);
    }
  }

  /** What is left ends neither with '/' nor with a "." component. */
  lemma SinFinalTermina(ruta: string)
    ensures var r := SinFinal(ruta); r == [] || (r[|r| - 1] != '/' && !PuntoFinal(r))
  {
    var k := LargoSinFinal(ruta, |ruta|);
    LargoSinFinalTermina(ruta, |ruta|);
    var r := ruta[..k];
    if k > 0 {
      assert r[k - 1] == ruta[k - 1];
      if k > 1 {
        assert r[k - 2] == ruta[k - 2];
      }
    }
  }

  /** The text after the last '/'. */
  function UltimoComponente(camino: string): (r: string)
    ensures TerminaCon(camino, r)
    ensures forall j :: 0 <= j < |r| ==> r[j] != '/'
  {
    camino[UltimoIndice(camino, '/') + 1..]
  }

  /** `PurePath(ruta).name`: the last component that is neither empty nor ".", that is,
      the text after the last '/' once the trailing '/' and "." are gone. */
  function NombreBase(ruta: string): (r: string)
    ensures TerminaCon(SinFinal(ruta), r)
    ensures forall j :: 0 <= j < |r| ==> r[j] != '/'
  {
    var camino := SinFinal(ruta);
    UltimoComponente(camino)
  }

  /** `PurePath(ruta).suffix`: from the last '.' of the name, provided that dot is neither
      the name's first nor its last character; otherwise empty. */
  function Sufijo(ruta: string): (r: string)
    ensures r == "" || (|r| >= 2 && r[0] == '.')
    ensures forall j :: 1 <= j < |r| ==> r[j] != '.'
    ensures forall j :: 0 <= j < |r| ==> r[j] != '/'
    ensures TerminaCon(NombreBase(ruta), r)
    ensures r != "" ==> |r| < |NombreBase(ruta)|
    ensures var n := NombreBase(ruta);
            (exists i :: 0 < i < |n| - 1 && n[i] == '.' && forall j :: i < j < |n| ==> n[j] != '.') ==> r != ""
  {
    var nombre := NombreBase(ruta);
    var i := UltimoIndice(nombre, '.');
    if 0 < i < |nombre| - 1 then nombre[i..] else ""
  }

  /** A trailing "/" or "/." changes neither the name nor the suffix: `PurePath` drops
      them, so "informe.pdf/" has the suffix ".pdf". */
  lemma {:induction false} SufijoIgnoraElFinal(ruta: string)
    ensures NombreBase(ruta + "/") == NombreBase(ruta) && Sufijo(ruta + "/") == Sufijo(ruta)
    ensures NombreBase(ruta + "/.") == NombreBase(ruta) && Sufijo(ruta + "/.") == Sufijo(ruta)
  {
    SinFinalIgnoraElFinal(ruta);
  }

  lemma SinFinalIgnoraElFinal(ruta: string)
    ensures SinFinal(ruta + "/") == SinFinal(ruta) && SinFinal(ruta + "/.") == SinFinal(ruta)
  {
    var n := |ruta|;
    var barra := ruta + ['/'];
    var punto := barra + ['.'];
    assert barra[..n] == ruta[..n] && punto[..n] == ruta[..n];
    LargoSinFinalPrefijo(barra, ruta, n);
    LargoSinFinalPrefijo(punto, ruta, n);
    assert LargoSinFinal(barra, n + 1) == LargoSinFinal(barra, n);
    assert PuntoFinalEn(punto, n + 2);
    assert LargoSinFinal(punto, n + 2) == LargoSinFinal(punto, n);
    var k := LargoSinFinal(ruta, n);
    assert barra[..k] == ruta[..k] && punto[..k] == ruta[..k];
    assert ruta + "/" == barra && ruta + "/." == punto;
  }

  /** A name made of a stem and an extension ".x…" (no other dot in the extension, no '/'
      anywhere, a non-empty stem) has that extension as its suffix. */
  lemma SufijoDe(raiz: string, ext: string)
    requires raiz != "" && |ext| >= 2 && ext[0] == '.'
    requires forall j :: 0 <= j < |raiz| ==> raiz[j] != '/'
    requires forall j :: 0 <= j < |ext| ==> ext[j] != '/'
    requires forall j :: 1 <= j < |ext| ==> ext[j] != '.'
    ensures Sufijo(raiz + ext) == ext
  {
    var s := raiz + ext;
    assert s[|s| - 1] == ext[|ext| - 1];
    assert LargoSinFinal(s, |s|) == |s|;
    assert SinFinal(s) == s;
    assert forall j :: 0 <= j < |s| ==> s[j] != '/';
    assert UltimoIndice(s, '/') == -1;
    assert UltimoComponente(s) == s;
    assert NombreBase(s) == s;
    assert s[|raiz|] == '.';
    var i := UltimoIndice(s, '.');
    assert forall j :: |raiz| < j < |s| ==> s[j] == ext[j - |raiz|];
    assert i == |raiz|;
    assert s[i..] == ext;
  }

  /** `sep.join(partes)` */
  function Unir(sep: string, partes: seq<string>): (r: string)
    ensures partes == [] ==> r == ""
    ensures partes != [] ==> EmpiezaCon(r, partes[0]) && TerminaCon(r, partes[|partes| - 1])
  {
    if partes == [] then ""
    else if |partes| == 1 then partes[0]
    else partes[0] + sep + Unir(sep, partes[1..])
  }

  /** `s[:n]` */
  function Primeros(s: string, n: nat): (r: string)
    ensures |r| <= n && EmpiezaCon(s, r)
  {
    if |s| <= n then s else s[..n]
  }

  predicate EsDigito(c: char)
  {
    '0' <= c <= '9'
  }

  function Digito(d: nat): (c: char)
    requires d < 10
    ensures EsDigito(c)
  {
    ('0' as int + d) as char
  }

  /** `str(n)` for a natural number: its decimal digits, without leading zeros. */
  function NatATexto(n: nat): (r: string)
    ensures |r| > 0
    ensures r[0] == '0' <==> n == 0
    ensures |r| > 1 ==> r[0] != '0'
    ensures forall j :: 0 <= j < |r| ==> EsDigito(r[j])
  {
    if n < 10 then [Digito(n)] else NatATexto(n / 10) + [Digito(n % 10)]
  }

  /** `str(i)` for any int: a '-' before the digits of a negative number. */
  function EnteroATexto(i: int): (r: string)
    ensures |r| > 0 && (r[0] == '-' <==> i < 0)
  {
    if i < 0 then "-" + NatATexto(-i) else NatATexto(i)
  }

  /** The value of a string of decimal digits. */
  function ValorDigitos(s: string): (v: nat)
    requires forall j :: 0 <= j < |s| ==> EsDigito(s[j])
  {
    if s == [] then 0 else ValorDigitos(s[..|s| - 1]) * 10 + ValorDigito(s[|s| - 1])
  }

  function ValorDigito(c: char): (d: nat)
    requires EsDigito(c)
    ensures d < 10
  {
    c as int - '0' as int
  }

  /** `int(s)` restricted to non-empty digit strings; anything else is rejected. */
  function LeerNat(s: string): (r: Option<nat>)
    ensures r.Some? <==> s != [] && forall j :: 0 <= j < |s| ==> EsDigito(s[j])
  {
    if s != [] && forall j :: 0 <= j < |s| ==> EsDigito(s[j]) then Some(ValorDigitos(s)) else None
  }

  /** Reading back the decimal text of a number gives the number. */
  lemma {:induction false} LeerNatATexto(n: nat)
    ensures LeerNat(NatATexto(n)) == Some(n)
  {
    var s := NatATexto(n);
    if n < 10 {
      assert s == [Digito(n)];
      assert ValorDigitos(s) == ValorDigitos([]) * 10 + ValorDigito(Digito(n));
    } else {
      LeerNatATexto(n / 10);
      assert s[..|s| - 1] == NatATexto(n / 10);
      assert s[|s| - 1] == Digito(n % 10);
      assert ValorDigitos(s) == (n / 10) * 10 + n % 10;
    }
  }
}
