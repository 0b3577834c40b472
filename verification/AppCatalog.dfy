/** The bundle catalog, as far as installing and uninstalling depend on it. */
module AppCatalog {
  import opened Text

  datatype Exposure = NotGiven | Private | Shared | Public | OtherExposure

  datatype Bundle = Bundle(units: seq<string>, defaultExposure: Exposure, maxExposure: Exposure)

  /** Bundles by identifier. */
  type Catalog = map<string, Bundle>

  datatype Request = Request(bundle: string, name: string, hostname: string, exposure: Exposure)

  /** The stem that marks a bundle as no part of the system closure. */
  const NON_NATIVE := "non-native"

  predicate Mentions(s: string, part: string)
  {
    exists i :: 0 <= i <= |s| && part <= s[i..]
  }

  /** A bundle the system closure defines, which an uninstall refuses. */
  predicate Native(catalog: Catalog, bundle: string)
  {
    bundle in catalog && catalog[bundle].units != [] && !Mentions(bundle, NON_NATIVE)
  }

  function Rank(e: Exposure): int
  {
    match e
    case NotGiven => 0
    case Private => 0
    case Shared => 1
    case Public => 2
    case OtherExposure => -1
  }

  predicate Alphanumeric(c: char)
  {
    'a' <= c <= 'z' || '0' <= c <= '9'
  }

  /** 1 to 63 characters of [a-z0-9-], a letter first and no dash last. */
  predicate ValidSlug(s: string)
  {
    && 1 <= |s| <= 63 && 'a' <= s[0] <= 'z' && Alphanumeric(s[|s| - 1])
    && forall i | 0 <= i < |s| :: Alphanumeric(s[i]) || s[i] == '-'
  }

  /** Labels of [a-z0-9-] between dots, none with a dash at an end. */
  predicate ValidHostname(h: string)
  {
    && h != "" && Alphanumeric(h[0]) && Alphanumeric(h[|h| - 1])
    && forall i | 0 <= i < |h| ::
         || Alphanumeric(h[i]) || h[i] == '-'
         || (h[i] == '.' && 0 < i < |h| - 1 && Alphanumeric(h[i - 1]) && Alphanumeric(h[i + 1]))
  }

  function InstallName(req: Request): string
  {
    if req.name == "" then req.bundle else req.name
  }

  function InstallExposure(req: Request, bundle: Bundle): Exposure
  {
    if req.exposure.NotGiven? then bundle.defaultExposure else req.exposure
  }

  /** What an install demands of a request for a bundle of the catalog. */
  predicate WellFormed(req: Request, bundle: Bundle)
  {
    var rank := Rank(InstallExposure(req, bundle));
    && ValidSlug(InstallName(req))
    && 0 <= rank <= Rank(bundle.maxExposure)
    && (if req.hostname == "" then rank == 0 else ValidHostname(req.hostname))
  }

  // ------------------------------------------------- the same, read off the text

  /** A bundle is native unless its identifier has the stem somewhere. */
  lemma NativeIs(catalog: Catalog, bundle: string)
    ensures Native(catalog, bundle) <==>
              && bundle in catalog && |catalog[bundle].units| > 0
              && !exists before, after :: bundle == before + "non-native" + after
  {
    if Mentions(bundle, NON_NATIVE) {
      var i :| 0 <= i <= |bundle| && NON_NATIVE <= bundle[i..];
      var before, after := bundle[..i], bundle[i + |NON_NATIVE|..];
      assert bundle == before + "non-native" + after;
    }
    if before, after :| bundle == before + "non-native" + after {
      assert bundle[|before|..] == "non-native" + after;
    }
  }

  /** The exposures an install may have under each ceiling, and when it needs a hostname. */
  lemma WellFormedIs(req: Request, bundle: Bundle)
    ensures WellFormed(req, bundle) <==>
              var e := if req.exposure.NotGiven? then bundle.defaultExposure else req.exposure;
              && ValidSlug(if req.name == "" then req.bundle else req.name)
              && (match bundle.maxExposure
                  case NotGiven => e in {NotGiven, Private}
                  case Private => e in {NotGiven, Private}
                  case Shared => e in {NotGiven, Private, Shared}
                  case Public => e in {NotGiven, Private, Shared, Public}
                  case OtherExposure => false)
              && (req.hostname == "" ==> e !in {Shared, Public})
              && (req.hostname != "" ==> ValidHostname(req.hostname))
  {
  }

  /** `s` spelled as the regular expression does: a letter, any of [a-z0-9-], and one of
      [a-z0-9], or the letter alone. */
  ghost predicate SpelledSlug(s: string, middle: string, last: string)
  {
    && s != "" && 'a' <= s[0] <= 'z' && s == [s[0]] + middle + last
    && (forall i | 0 <= i < |middle| :: 'a' <= middle[i] <= 'z' || '0' <= middle[i] <= '9' || middle[i] == '-')
    && (if last == "" then middle == "" else |last| == 1 && ('a' <= last[0] <= 'z' || '0' <= last[0] <= '9'))
  }

  lemma SlugIs(s: string)
    ensures ValidSlug(s) <==> |s| <= 63 && exists middle, last :: SpelledSlug(s, middle, last)
  {
    if ValidSlug(s) {
      var middle, last := if |s| == 1 then "" else s[1..|s| - 1], if |s| == 1 then "" else [s[|s| - 1]];
      assert s == [s[0]] + middle + last;
      assert SpelledSlug(s, middle, last);
    }
    if |s| <= 63 {
      forall middle, last | SpelledSlug(s, middle, last)
        ensures ValidSlug(s)
      {
        SpelledIsValid(s, middle, last);
      }
    }
  }

  lemma SpelledIsValid(s: string, middle: string, last: string)
    requires |s| <= 63 && SpelledSlug(s, middle, last)
    ensures ValidSlug(s)
  {
    forall i | 0 <= i < |s|
      ensures Alphanumeric(s[i]) || s[i] == '-'
    {
      if 0 < i <= |middle| {
        assert s[i] == middle[i - 1];
      }
    }
  }

  predicate Label(l: string)
  {
    && l != "" && Alphanumeric(l[0]) && Alphanumeric(l[|l| - 1])
    && forall i | 0 <= i < |l| :: Alphanumeric(l[i]) || l[i] == '-'
  }

  function Labels(h: string): seq<string>
    decreases |h|
  {
    var i := IndexOf(h, '.');
    if i == |h| then [h] else [h[..i]] + Labels(h[i + 1..])
  }

  /** A hostname is labels between dots. */
  lemma {:induction false} HostnameIs(h: string)
    ensures ValidHostname(h) <==> forall l | l in Labels(h) :: Label(l)
    decreases |h|
  {
    var i := IndexOf(h, '.');
    if i < |h| {
      var first, rest := h[..i], h[i + 1..];
      HostnameIs(rest);
      assert Labels(h) == [first] + Labels(rest);
      assert (forall l | l in Labels(h) :: Label(l)) <==> Label(first) && forall l | l in Labels(rest) :: Label(l);
      HostnameSplits(h, i);
    } else {
      assert Labels(h) == [h];
      assert forall j | 0 <= j < |h| :: h[j] != '.';
      assert ValidHostname(h) <==> Label(h);
    }
  }

  lemma HostnameSplits(h: string, i: nat)
    requires i < |h| && h[i] == '.' && forall j | 0 <= j < i :: h[j] != '.'
    ensures ValidHostname(h) <==> Label(h[..i]) && ValidHostname(h[i + 1..])
  {
    var first, rest := h[..i], h[i + 1..];
    assert forall j | 0 <= j < |rest| :: rest[j] == h[i + 1 + j];
    if ValidHostname(h) {
      assert 0 < i < |h| - 1;
      forall j | 0 <= j < |rest|
        ensures || Alphanumeric(rest[j]) || rest[j] == '-'
                || (rest[j] == '.' && 0 < j < |rest| - 1 && Alphanumeric(rest[j - 1]) && Alphanumeric(rest[j + 1]))
      {
        assert h[i + 1 + j] == rest[j];
      }
    }
    if Label(first) && ValidHostname(rest) {
      forall j | 0 <= j < |h|
        ensures || Alphanumeric(h[j]) || h[j] == '-'
                || (h[j] == '.' && 0 < j < |h| - 1 && Alphanumeric(h[j - 1]) && Alphanumeric(h[j + 1]))
      {
        if j < i {
          assert first[j] == h[j];
        } else if j == i {
          assert h[i - 1] == first[|first| - 1] && h[i + 1] == rest[0];
        } else {
          assert h[j] == rest[j - i - 1];
          if h[j] == '.' {
            assert h[j - 1] == rest[j - i - 2] && h[j + 1] == rest[j - i];
          }
        }
      }
    }
  }
}
