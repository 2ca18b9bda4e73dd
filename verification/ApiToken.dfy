/** Printing and reading access tokens (src/server/api_token.rs). */
module ApiToken {
  import opened Common
  import opened Text

  const PREFIX := "mid_"

  datatype Presented = Presented(id: u64, secret: string)

  /** The token as its owner is handed it. */
  function Assemble(id: u64, secret: string): string {
    PREFIX + (Decimal(id) + ['_'] + secret)
  }

  /** What follows the prefix: an id, an underscore and a secret that may hold more of them. */
  function ParseBody(body: string): Option<Presented> {
    match SplitOnce(body, '_')
    case None => None
    case Some((digits, secret)) =>
      if secret == "" then None
      else
        match ParseU64(digits)
        case None => None
        case Some(id) => Some(Presented(id, secret))
  }

  function Parse(presented: string): Option<Presented> {
    var trimmed := Trim(presented);
    if PREFIX <= trimmed then ParseBody(trimmed[|PREFIX|..]) else None
  }

  function FromHeader(header: string): Option<Presented> {
    match SplitOnce(header, ' ')
    case None => None
    case Some((scheme, value)) => if EqIgnoreAsciiCase(scheme, "bearer") then Parse(value) else None
  }

  lemma NumeralHasNoUnderscore(id: u64)
    ensures '_' !in Decimal(id)
  {
  }

  lemma BodyRoundTrip(id: u64, secret: string)
    ensures ParseBody(Decimal(id) + ['_'] + secret) == if secret == "" then None else Some(Presented(id, secret))
  {
    NumeralHasNoUnderscore(id);
    SplitOnceAt(Decimal(id), secret, '_');
    ParseDecimal(id);
  }

  /** Trimming an assembled token takes nothing but the white space its secret ends in. */
  lemma TrimmedToken(id: u64, secret: string)
    ensures Trim(Assemble(id, secret)) == Assemble(id, TrimEnd(secret))
  {
    hide TrimEnd, TrimStart, Decimal;
    var head := PREFIX + (Decimal(id) + ['_']);
    assert Assemble(id, secret) == head + secret;
    assert Assemble(id, TrimEnd(secret)) == head + TrimEnd(secret);
    TrimEndOfTail(head, secret);
    TrimStartOfHead(Assemble(id, secret));
    TrimStartOfHead(Assemble(id, TrimEnd(secret)));
  }

  lemma TrimStartOfHead(s: string)
    requires s != "" && !IsSpace(s[0])
    ensures TrimStart(s) == s
  {
  }

  lemma {:induction false} TrimEndOfTail(head: string, tail: string)
    requires head != "" && !IsSpace(head[|head| - 1])
    ensures TrimEnd(head + tail) == head + TrimEnd(tail)
  {
    if tail == "" {
      assert head + tail == head;
    } else if IsSpace(tail[|tail| - 1]) {
      TrimEndOfTail(head, tail[..|tail| - 1]);
      assert (head + tail)[..|head + tail| - 1] == head + tail[..|tail| - 1];
    }
  }

  lemma ParseOfAssembled(id: u64, secret: string)
    ensures Parse(Assemble(id, secret)) ==
            if TrimEnd(secret) == "" then None else Some(Presented(id, TrimEnd(secret)))
  {
    hide Trim, ParseBody, TrimEnd;
    TrimmedToken(id, secret);
    BodyRoundTrip(id, TrimEnd(secret));
    var trimmed := Assemble(id, TrimEnd(secret));
    assert trimmed[|PREFIX|..] == Decimal(id) + ['_'] + TrimEnd(secret);
  }

  /** A token is read back as it was made iff its secret is not empty and does not end in white space. */
  lemma TokenRoundTripIff(id: u64, secret: string)
    ensures Parse(Assemble(id, secret)) == Some(Presented(id, secret)) <==>
            secret != "" && !IsSpace(secret[|secret| - 1])
  {
    ParseOfAssembled(id, secret);
    if secret != "" && IsSpace(secret[|secret| - 1]) {
      assert |TrimEnd(secret)| < |secret|;
    }
  }

  /** In a header, after the scheme in any mixture of cases, a token reads as it does alone. */
  lemma HeaderCarriesToken(scheme: string, id: u64, secret: string)
    requires EqIgnoreAsciiCase(scheme, "bearer")
    ensures FromHeader(scheme + [' '] + Assemble(id, secret)) == Parse(Assemble(id, secret))
  {
    forall c | c in scheme ensures c != ' ' {
      var i :| 0 <= i < |scheme| && scheme[i] == c;
      assert LowerAscii(scheme)[i] == LowerAsciiChar(c);
      assert LowerAscii("bearer")[i] == LowerAsciiChar("bearer"[i]);
      assert "bearer"[i] in "bearer" && LowerAsciiChar("bearer"[i]) == "bearer"[i] != ' ';
    }
    SplitOnceAt(scheme, Assemble(id, secret), ' ');
  }

  /** A token in print: the prefix, its id in digits, an underscore and its secret. */
  lemma TokenText(id: u64, secret: string)
    ensures Assemble(id, secret) == "mid_" + Decimal(id) + "_" + secret
  {
    hide Decimal;
  }

  /** The word of the scheme, in any mixture of cases. */
  predicate IsScheme(scheme: string) {
    |scheme| == 6 && forall i | 0 <= i < 6 :: scheme[i] == "bearer"[i] || scheme[i] == "BEARER"[i]
  }

  /** A header is read iff its first word is the scheme, in any casing, and a token follows. */
  lemma HeaderIsReadIff(header: string, p: Presented)
    ensures FromHeader(header) == Some(p) <==>
            exists scheme, rest :: header == scheme + " " + rest && IsScheme(scheme) && Parse(rest) == Some(p)
  {
    hide Parse, IsScheme;
    forall scheme, rest | header == scheme + " " + rest && IsScheme(scheme)
      ensures SplitOnce(header, ' ') == Some((scheme, rest)) && EqIgnoreAsciiCase(scheme, "bearer")
    {
      SchemeIff(scheme);
      SplitOnceAt(scheme, rest, ' ');
    }
    var parts := SplitOnce(header, ' ');
    if parts.Some? {
      assert header == parts.value.0 + " " + parts.value.1;
      SchemeIff(parts.value.0);
    }
  }

  lemma SchemeIff(scheme: string)
    ensures EqIgnoreAsciiCase(scheme, "bearer") <==> IsScheme(scheme)
    ensures IsScheme(scheme) ==> ' ' !in scheme
  {
    assert "bearer" == ['b', 'e', 'a', 'r', 'e', 'r'] && "BEARER" == ['B', 'E', 'A', 'R', 'E', 'R'];
    assert LowerAscii("bearer") == "bearer";
  }

  /** Different tokens are printed differently, whatever their secrets hold. */
  lemma AssembleInjective(id: u64, secret: string, id': u64, secret': string)
    requires Assemble(id, secret) == Assemble(id', secret')
    ensures id == id' && secret == secret'
  {
    NumeralHasNoUnderscore(id);
    NumeralHasNoUnderscore(id');
    assert Assemble(id, secret)[|PREFIX|..] == Decimal(id) + ['_'] + secret;
    assert Assemble(id', secret')[|PREFIX|..] == Decimal(id') + ['_'] + secret';
    SplitOnceAt(Decimal(id), secret, '_');
    SplitOnceAt(Decimal(id'), secret', '_');
    DecimalInjective(id, id');
  }

  /** Everything that is read as a token is one, up to white space around it and how its id is spelled. */
  lemma ParsedIsAssembled(presented: string, p: Presented)
    requires Parse(presented) == Some(p)
    ensures exists digits :: ParseU64(digits) == Some(p.id) &&
              Trim(presented) == PREFIX + (digits + ['_'] + p.secret)
  {
  }
}
