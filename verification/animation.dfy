/** The animation helpers of the solar scripts (python/solar/Animation.py):
    the naming of the generated files, the substitution of the two keys
    of the template scene, and the list of animation parameters. Reading
    and writing files, creating the directory and running the renderer
    are not part of this model; the template's text is a parameter. */
module Animation {

  import opened Wrappers
  import opened PosixPath
  import opened RealArith
  import XmlSpectrum

  // ---------------------------------------------------------------------
  // str() of an index

  function Digit(d: nat): (c: char)
    requires d < 10
    ensures '0' <= c <= '9' && c as int - '0' as int == d
  {
    ('0' as int + d) as char
  }

  /** str(n): the decimal digits of n, without leading zeros. */
  function NatToString(n: nat): (s: string)
    ensures |s| >= 1
    ensures forall j | 0 <= j < |s| :: '0' <= s[j] <= '9'
  {
    if n < 10 then [Digit(n)] else NatToString(n / 10) + [Digit(n % 10)]
  }

  /** int(s) on a string of digits. */
  function ParseDecimal(s: string): nat
    requires forall j | 0 <= j < |s| :: '0' <= s[j] <= '9'
  {
    if s == [] then 0 else ParseDecimal(s[..|s| - 1]) * 10 + (s[|s| - 1] as int - '0' as int)
  }

  lemma {:induction false} NatToStringRoundTrip(n: nat)
    ensures ParseDecimal(NatToString(n)) == n
  {
    if n >= 10 {
      NatToStringRoundTrip(n / 10);
      var s := NatToString(n);
      assert s[..|s| - 1] == NatToString(n / 10);
    }
  }

  /** Different indices give different names. */
  lemma NatToStringInjective(a: nat, b: nat)
    ensures NatToString(a) == NatToString(b) ==> a == b
  {
    NatToStringRoundTrip(a);
    NatToStringRoundTrip(b);
  }

  // ---------------------------------------------------------------------
  // _editerNom

  /** _editerNom: the file name of `original` with `indice` appended to
      its root, in the sub-directory `sousDossier` of the original's
      directory, with the given extension or else the original one. */
  function EditerNom(original: string, sousDossier: string, indice: string, extension: Option<string>): string {
    var (dossier, fichier) := SplitPath(original);
    var (nom, ext) := SplitExt(fichier);
    var nNom := Join(dossier, sousDossier);
    if extension.None? then Join(nNom, nom + indice + ext) else Join(nNom, nom + indice + extension.value)
  }

  lemma SplitPathExample()
    ensures SplitPath("/home/toto/exemple.xml") == ("/home/toto", "exemple.xml")
  {
    var p := "/home/toto/exemple.xml";
    assert RFind(p, '/') == 10 by {
      assert p[10] == '/';
      assert forall j | 10 < j < |p| :: p[j] != '/';
    }
    assert p[..11] == "/home/toto/" && p[11..] == "exemple.xml";
    assert !AllSlashes("/home/toto/") by {
      assert "/home/toto/"[1] != '/';
    }
    assert RStrip("/home/toto/", '/') == "/home/toto" by {
      assert "/home/toto/"[..10] == "/home/toto";
    }
  }

  lemma SplitExtExample()
    ensures SplitExt("exemple.xml") == ("exemple", ".xml")
  {
    assert "exemple"[0] != '.';
    assert ".xml"[1..] == "xml";
    SplitExtOf("exemple", ".xml");
    assert "exemple" + ".xml" == "exemple.xml";
  }

  lemma JoinExample()
    ensures Join(Join("/home/toto", "Dossier"), "exemple" + "4" + ".png") == "/home/toto/Dossier/exemple4.png"
  {
    var d, n := "/home/toto/Dossier", "exemple4.png";
    assert Join("/home/toto", "Dossier") == d by {
      assert "/home/toto" + "/" + "Dossier" == d;
    }
    assert "exemple" + "4" + ".png" == n;
    assert Join(d, n) == "/home/toto/Dossier/exemple4.png" by {
      assert d + "/" + n == "/home/toto/Dossier/exemple4.png";
    }
  }

  /** The example of the documentation. */
  lemma EditerNomExample()
    ensures EditerNom("/home/toto/exemple.xml", "Dossier", "4", Some(".png")) == "/home/toto/Dossier/exemple4.png"
  {
    SplitPathExample();
    SplitExtExample();
    JoinExample();
  }

  /** The new file lies in the sub-directory of the original's directory,
      and its name is the original root, the index and the extension. */
  lemma EditerNomPlacement(original: string, sousDossier: string, indice: string, extension: Option<string>)
    requires sousDossier != [] && '/' !in sousDossier && '/' !in indice
    requires extension.Some? ==> '/' !in extension.value
    ensures var (dossier, fichier) := SplitPath(original);
            var (nom, ext) := SplitExt(fichier);
            var e := if extension.Some? then extension.value else ext;
            SplitPath(EditerNom(original, sousDossier, indice, extension)) == (Join(dossier, sousDossier), nom + indice + e)
  {
    var (dossier, fichier) := SplitPath(original);
    var (nom, ext) := SplitExt(fichier);
    var e := if extension.Some? then extension.value else ext;
    var d := Join(dossier, sousDossier);
    assert sousDossier[0] in sousDossier && sousDossier[|sousDossier| - 1] in sousDossier;
    assert d[|d| - 1] == sousDossier[|sousDossier| - 1];
    var name := nom + indice + e;
    assert '/' !in name by {
      forall c | c in name ensures c != '/' {
        assert c in fichier || c in indice || c in e;
      }
    }
    SplitOfJoin(d, name);
  }

  /** Without an explicit extension, the new name keeps the extension of
      the original. */
  lemma EditerNomKeepsExtension(original: string, sousDossier: string, indice: string)
    requires sousDossier != [] && '/' !in sousDossier && '/' !in indice
    ensures var (nom, ext) := SplitExt(SplitPath(original).1);
            ext != [] ==> SplitExt(SplitPath(EditerNom(original, sousDossier, indice, None)).1) == (nom + indice, ext)
  {
    var fichier := SplitPath(original).1;
    var (nom, ext) := SplitExt(fichier);
    EditerNomPlacement(original, sousDossier, indice, None);
    if ext != [] {
      var k := RootNotDots(fichier);
      assert '/' !in nom + indice by {
        forall c | c in nom + indice ensures c != '/' {
          assert c in fichier || c in indice;
        }
      }
      assert (nom + indice)[k] == nom[k];
      SplitExtOf(nom + indice, ext);
      assert nom + indice + ext == (nom + indice) + ext;
    }
  }

  /** A slash-free name with an extension has a root that is not made of
      dots only. */
  lemma RootNotDots(fichier: string) returns (k: nat)
    requires '/' !in fichier && SplitExt(fichier).1 != []
    ensures k < |SplitExt(fichier).0| && SplitExt(fichier).0[k] != '.'
  {
    assert RFind(fichier, '/') == -1;
    var dotIndex := RFind(fichier, '.');
    k :| 0 <= k < dotIndex && fichier[k] != '.';
    assert SplitExt(fichier).0 == fichier[..dotIndex];
  }

  // ---------------------------------------------------------------------
  // genererScenes

  /** Python's slice s[start:], where a negative start counts from the
      end. */
  function SliceFrom(s: string, start: int): string {
    if start >= 0 then (if start <= |s| then s[start..] else [])
    else if |s| + start >= 0 then s[|s| + start..]
    else s
  }

  /** The test original[len(original) - 4:] == ".xml" holds exactly for
      names ending in ".xml". */
  lemma XmlExtensionCheck(original: string)
    ensures SliceFrom(original, |original| - 4) == ".xml" <==> |original| >= 4 && original[|original| - 4..] == ".xml"
  {
    if |original| < 4 {
      assert |SliceFrom(original, |original| - 4)| < 4;
    }
  }

  /** str.replace with an empty key: the value around every character. */
  function Interleave(s: string, value: string): (r: string)
    ensures |r| == |value| * (|s| + 1) + |s|
  {
    if s == [] then value else value + [s[0]] + Interleave(s[1..], value)
  }

  /** s.replace(key, value): every occurrence of key, scanned from the
      left without overlap, replaced by value. */
  function Replace(s: string, key: string, value: string): string {
    if key == [] then Interleave(s, value) else XmlSpectrum.Join(XmlSpectrum.Split(s, key), value)
  }

  /** A text without the key is left as it is. */
  lemma ReplaceAbsent(s: string, key: string, value: string)
    requires key != [] && XmlSpectrum.Free(s, key)
    ensures Replace(s, key, value) == s
  {
    XmlSpectrum.SplitFree(s, key);
  }

  /** Replacing a key by itself changes nothing. */
  lemma ReplaceSame(s: string, key: string)
    requires key != []
    ensures Replace(s, key, key) == s
  {
    XmlSpectrum.SplitJoin(s, key);
  }

  /** A key occurring once is replaced by the value in place. */
  lemma ReplaceOnce(a: string, key: string, value: string, b: string)
    requires XmlSpectrum.HeadUnique(key) && XmlSpectrum.Free(a, key) && XmlSpectrum.Free(b, key)
    ensures Replace(a + key + b, key, value) == a + value + b
  {
    assert a + key + b == a + (key + b);
    XmlSpectrum.SplitCons(a, key, b);
    XmlSpectrum.SplitFree(b, key);
    var parts := [a] + [b];
    assert parts[1..] == [b];
    assert XmlSpectrum.Join(parts, value) == a + value + b;
  }

  /** A substitution is undone by the reverse substitution when the
      value is absent from the text around the keys. */
  lemma ReplaceUndone(s: string, key: string, value: string)
    requires key != [] && XmlSpectrum.HeadUnique(value)
    requires forall k | 0 <= k < |XmlSpectrum.Split(s, key)| :: XmlSpectrum.Free(XmlSpectrum.Split(s, key)[k], value)
    ensures Replace(Replace(s, key, value), value, key) == s
  {
    XmlSpectrum.SplitOfJoin(XmlSpectrum.Split(s, key), value);
    XmlSpectrum.SplitJoin(s, key);
  }

  /** One generated scene file. */
  datatype Scene = Scene(name: string, text: string)

  /** The scene of parameter number i: the template with the first key
      replaced by the parameter and the second by the image name. */
  function SceneOf(original: string, template: string, i: nat, p: real, clef1: string, clef2: string,
                   sDossier: string, str: real -> string): Scene {
    var text := Replace(template, clef1, str(p));
    var image := EditerNom(original, "images", NatToString(i), Some(".png"));
    Scene(EditerNom(original, sDossier, NatToString(i), None), Replace(text, clef2, image))
  }

  /** genererScenes: one scene per parameter, refused unless the model
      file name ends in ".xml". */
  function GenererScenes(original: string, template: string, parametres: seq<real>, clef1: string, clef2: string,
                         sDossier: string, str: real -> string): (r: Result<seq<Scene>>)
    ensures r.Failure? <==> !(|original| >= 4 && original[|original| - 4..] == ".xml")
    ensures r.Success? ==> |r.value| == |parametres|
    ensures r.Success? ==> forall i | 0 <= i < |parametres| ::
              r.value[i] == SceneOf(original, template, i, parametres[i], clef1, clef2, sDossier, str)
  {
    XmlExtensionCheck(original);
    if SliceFrom(original, |original| - 4) != ".xml" then Failure("Fichier non valide : l'extension n'est pas XML")
    else Success(seq(|parametres|, i requires 0 <= i < |parametres| =>
                   SceneOf(original, template, i, parametres[i], clef1, clef2, sDossier, str)))
  }

  /** No two scenes are written to the same file. */
  lemma ScenesNamedApart(original: string, template: string, parametres: seq<real>, clef1: string, clef2: string,
                         sDossier: string, str: real -> string, i: nat, j: nat)
    requires GenererScenes(original, template, parametres, clef1, clef2, sDossier, str).Success?
    requires sDossier != [] && '/' !in sDossier
    requires i < |parametres| && j < |parametres| && i != j
    ensures GenererScenes(original, template, parametres, clef1, clef2, sDossier, str).value[i].name
            != GenererScenes(original, template, parametres, clef1, clef2, sDossier, str).value[j].name
  {
    var si, sj := NatToString(i), NatToString(j);
    assert '/' !in si && '/' !in sj by {
      assert forall c | c in si :: '0' <= c <= '9';
      assert forall c | c in sj :: '0' <= c <= '9';
    }
    var r := GenererScenes(original, template, parametres, clef1, clef2, sDossier, str).value;
    assert r[i].name == EditerNom(original, sDossier, si, None);
    assert r[j].name == EditerNom(original, sDossier, sj, None);
    EditerNomPlacement(original, sDossier, si, None);
    EditerNomPlacement(original, sDossier, sj, None);
    NatToStringInjective(i, j);
    var (nom, ext) := SplitExt(SplitPath(original).1);
    if r[i].name == r[j].name {
      AppendCancel(nom, si, sj, ext);
    }
  }

  lemma AppendCancel(a: string, x: string, y: string, b: string)
    requires a + x + b == a + y + b
    ensures x == y
  {
    var s := a + x + b;
    assert |x| == |y|;
    assert x == s[|a|..|a| + |x|];
    assert y == (a + y + b)[|a|..|a| + |y|];
  }

  /** A template holding neither key is copied unchanged into every
      scene. */
  lemma ScenesWithoutKeys(original: string, template: string, parametres: seq<real>, clef1: string, clef2: string,
                          sDossier: string, str: real -> string, i: nat)
    requires GenererScenes(original, template, parametres, clef1, clef2, sDossier, str).Success?
    requires clef1 != [] && clef2 != [] && XmlSpectrum.Free(template, clef1) && XmlSpectrum.Free(template, clef2)
    requires i < |parametres|
    ensures GenererScenes(original, template, parametres, clef1, clef2, sDossier, str).value[i].text == template
  {
    ReplaceAbsent(template, clef1, str(parametres[i]));
    ReplaceAbsent(template, clef2, EditerNom(original, "images", NatToString(i), Some(".png")));
  }

  // ---------------------------------------------------------------------
  // parametresAnimation

  /** parametresAnimation: int(t * ips) frames; frame a, shown a / ips
      seconds into the animation, carries a * dlambda / ips. */
  function ParametresAnimation(t: real, dlambda: real, ips: int): (r: seq<real>)
    ensures |r| == if Trunc(t * ips as real) > 0 then Trunc(t * ips as real) else 0
    ensures |r| > 0 ==> ips != 0
    ensures forall a | 0 <= a < |r| :: r[a] * ips as real == a as real * dlambda
  {
    var n := Trunc(t * ips as real);
    if n <= 0 then []
    else
      assert ips != 0;
      seq(n, a requires 0 <= a < n => a as real * dlambda / ips as real)
  }

  /** Successive frames advance by dlambda / ips, starting from 0, and
      for a positive duration, rate and step every value stays below
      t * dlambda. */
  lemma ParametresProgress(t: real, dlambda: real, ips: int)
    requires t > 0.0 && ips > 0 && dlambda > 0.0
    ensures var r := ParametresAnimation(t, dlambda, ips);
            && (|r| > 0 ==> r[0] == 0.0)
            && (forall a | 0 <= a < |r| - 1 :: r[a + 1] - r[a] == dlambda / ips as real)
            && (forall a | 0 <= a < |r| :: 0.0 <= r[a] < t * dlambda)
  {
    var r := ParametresAnimation(t, dlambda, ips);
    var f := ips as real;
    FrameCountBelowEnd(t, f, Trunc(t * f));
    FramesBounded(r, f, t, dlambda);
    FramesEvenlySpaced(r, f, dlambda);
  }

  /** The frame count never exceeds duration times rate. */
  lemma FrameCountBelowEnd(t: real, f: real, n: int)
    requires t > 0.0 && f > 0.0 && n == Trunc(t * f)
    ensures n as real <= t * f
  {
    assert t * f > 0.0 by {
      assert 0.0 * f < t * f;
    }
  }

  lemma FramesBounded(r: seq<real>, f: real, t: real, d: real)
    requires f > 0.0 && d > 0.0 && |r| as real <= t * f
    requires forall a | 0 <= a < |r| :: r[a] * f == a as real * d
    ensures forall a | 0 <= a < |r| :: 0.0 <= r[a] < t * d
  {
    forall a | 0 <= a < |r| ensures 0.0 <= r[a] < t * d {
      FrameBeforeEnd(a as real, f, t, d, r[a]);
    }
  }

  lemma FramesEvenlySpaced(r: seq<real>, f: real, d: real)
    requires f != 0.0
    requires forall a | 0 <= a < |r| :: r[a] * f == a as real * d
    ensures |r| > 0 ==> r[0] == 0.0
    ensures forall a | 0 <= a < |r| - 1 :: r[a + 1] - r[a] == d / f
  {
    if |r| > 0 {
      MulCancelReal(r[0], 0.0, f);
    }
    forall a | 0 <= a < |r| - 1 ensures r[a + 1] - r[a] == d / f {
      FrameStep(a as real, f, d, r[a], r[a + 1]);
    }
  }

  lemma FrameBeforeEnd(a: real, f: real, t: real, d: real, v: real)
    requires 0.0 <= a < t * f && f > 0.0 && d > 0.0 && v * f == a * d
    ensures 0.0 <= v < t * d
  {
    var q := a / f;
    assert q * f == a;
    assert q < t;
    assert v == q * d by {
      assert (q * d) * f == a * d;
      MulCancelReal(v, q * d, f);
    }
    assert q * d < t * d;
  }

  lemma FrameStep(a: real, f: real, d: real, v: real, w: real)
    requires f != 0.0 && v * f == a * d && w * f == (a + 1.0) * d
    ensures w - v == d / f
  {
    assert (w - v) * f == d;
    assert (d / f) * f == d;
    MulCancelReal(w - v, d / f, f);
  }

  /** The example of the documentation: two seconds at one unit per
      second and 25 frames per second give 50 values. */
  lemma ParametresExampleLength()
    ensures |ParametresAnimation(2.0, 1.0, 25)| == 50
  {
    assert Trunc(2.0 * 25 as real) == 50;
  }

  lemma ParametresExampleValues()
    ensures var r := ParametresAnimation(2.0, 1.0, 25);
            |r| == 50 && r[0] == 0.0 && r[1] == 0.04 && r[49] == 1.96
  {
    ParametresExampleLength();
  }
}
