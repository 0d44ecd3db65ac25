/** `Settings.cors_origins_list` of backend/app/config.py: the comma-separated
    `CORS_ORIGINS` setting turned into the list of allowed origins. */
module Config {
  import opened Strings

  /** The default value of `CORS_ORIGINS`. */
  const DefaultCorsOrigins: string := ""

  /** `[o.strip() for o in CORS_ORIGINS.split(",") if o.strip()]`. */
  /** Every origin is non-empty and carries no surrounding white space. */
  function CorsOriginsList(corsOrigins: string): (r: seq<string>)
    ensures forall k | 0 <= k < |r| :: Clean(r[k])
  {
    KeepStrippedClean(Split(corsOrigins, ","));
    KeepStripped(Split(corsOrigins, ","))
  }

  /** There are at most as many origins as commas plus one. */
  lemma CorsOriginsCount(corsOrigins: string)
    ensures |CorsOriginsList(corsOrigins)| <= CountChar(corsOrigins, ',') + 1
  {
    SplitCharCount(corsOrigins, ',');
  }

  /** The default setting allows no origin. */
  lemma CorsOriginsDefault()
    ensures CorsOriginsList(DefaultCorsOrigins) == []
  {
    assert Split(DefaultCorsOrigins, ",") == [""];
    assert Strip("") == "";
  }

  /** A setting without a comma gives its stripped self, or nothing when it is blank. */
  lemma {:induction false} CorsOriginsSingle(origin: string)
    requires ',' !in origin
    ensures CorsOriginsList(origin) == if IsBlank(origin) then [] else [Strip(origin)]
  {
    SplitWithoutSeparator(origin, ",");
    StripSpec(origin);
    assert [origin][1..] == [];
  }

  /** Order is kept and duplicates are not removed: the list of `a,b` is the list
      of `a` followed by the list of `b`. */
  lemma {:induction false} CorsOriginsConcat(a: string, b: string)
    ensures CorsOriginsList(a + "," + b) == CorsOriginsList(a) + CorsOriginsList(b)
  {
    SplitCharConcat(a, ',', b);
    KeepStrippedAppend(Split(a, ","), Split(b, ","));
  }

  /** Two entries for the same origin stay two entries. */
  lemma CorsOriginsKeepsDuplicates(origin: string)
    requires ',' !in origin && !IsBlank(origin)
    ensures CorsOriginsList(origin + "," + origin) == [Strip(origin), Strip(origin)]
  {
    CorsOriginsConcat(origin, origin);
    CorsOriginsSingle(origin);
  }
}
