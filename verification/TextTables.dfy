/**
 * The text functions the policy modules take as given: Unicode tables and the
 * two normalizations built on them (their structure is in NormalizedViews and SecurityView).
 */
module TextTables {
  datatype Tables = Tables(
    normalize: string -> string,           // normalize_pattern, and the canonical view of a text
    securityEligible: string -> bool,      // is_security_pattern_eligible
    securityNormalize: string -> string,   // security_normalize_pattern
    isToken: char -> bool)                 // is_token_character

  const SECURITY_VERSION := "unicode17-icu2.2-security-v4"
}
