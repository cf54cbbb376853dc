/** The user's locale choice and the `Nester` wrapper through which it is written to and read
    back from the configuration file as a plain locale name. */
module Locales {
  datatype LocaleChoice = EnUs | EsEs

  /** `NestedEnum` is what gets written, `Other` what comes back when it is read. */
  datatype Nester = NestedEnum(choice: LocaleChoice) | Other(text: string)

  /** The locale's file name stem: `en-US` or `es-ES`. */
  function GetName(c: LocaleChoice): (r: string)
    ensures r == "en-US" <==> c == EnUs
    ensures r == "es-ES" <==> c == EsEs
  {
    match c
    case EnUs => "en-US"
    case EsEs => "es-ES"
  }

  /** Different choices have different names. */
  lemma GetNameInjective(a: LocaleChoice, b: LocaleChoice)
    requires GetName(a) == GetName(b)
    ensures a == b
  {
  }

  /** `get_choice`: the string read back; a `NestedEnum` here panics, so callers pass `Other`. */
  function GetChoice(n: Nester): (r: string)
    requires n.Other?
    ensures r == n.text
  {
    match n
    case Other(s) => s
  }

  /** The locale choice of the default configuration, used when the configuration file is
      missing or does not parse. */
  const DefaultLocaleChoice: Nester := NestedEnum(EnUs)

  /** As written, the default configuration's choice is the variant `get_choice` panics on,
      although the same choice written out and read back would be accepted. */
  lemma DefaultChoiceReachesPanic()
    ensures DefaultLocaleChoice.NestedEnum?
    ensures Deserialize(Serialize(DefaultLocaleChoice)).Other?
  {
    ChoiceRoundTrip(EnUs);
  }

  /** The evidently intended `get_choice` is the serializer's reading of a choice: it agrees
      with `get_choice` wherever that does not panic, and gives the default configuration's
      choice the name `en-US`. */
  lemma WrittenNameExtendsGetChoice(n: Nester)
    ensures n.Other? ==> Serialize(n) == GetChoice(n)
    ensures Serialize(DefaultLocaleChoice) == "en-US"
    ensures Serialize(Deserialize(Serialize(DefaultLocaleChoice))) == Serialize(DefaultLocaleChoice)
  {
    ChoiceRoundTrip(EnUs);
  }

  /** The custom serializer: a choice as its name, any other string unchanged. */
  function Serialize(n: Nester): (r: string)
    ensures n.NestedEnum? ==> (r == "en-US" <==> n.choice == EnUs) && (r == "es-ES" <==> n.choice == EsEs)
    ensures n.Other? ==> r == n.text
  {
    match n
    case NestedEnum(c) => GetName(c)
    case Other(s) => s
  }

  /** The derived untagged deserializer: the first variant that accepts the string wins;
      `LocaleChoice` only accepts its variant names, everything else becomes `Other`. */
  function Deserialize(s: string): (r: Nester)
    ensures r.NestedEnum? <==> s == "EnUs" || s == "EsEs"
    ensures r.Other? ==> r.text == s
  {
    if s == "EnUs" then NestedEnum(EnUs)
    else if s == "EsEs" then NestedEnum(EsEs)
    else Other(s)
  }

  /** A written choice is read back as `Other` holding exactly its name. */
  lemma ChoiceRoundTrip(c: LocaleChoice)
    ensures Deserialize(Serialize(NestedEnum(c))).Other?
    ensures GetChoice(Deserialize(Serialize(NestedEnum(c)))) == GetName(c)
  {
    assert Serialize(NestedEnum(c))[2] == '-';
  }

  /** A written `Other(s)` reads back as itself iff `s` is not a variant name of `LocaleChoice`. */
  lemma OtherRoundTrip(s: string)
    ensures Deserialize(Serialize(Other(s))) == Other(s) <==> s != "EnUs" && s != "EsEs"
  {
  }
}
