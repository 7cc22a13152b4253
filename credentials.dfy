/**
  `update_aws_creds`: folds a freshly issued temporary session into the
  credentials document under the derived profile `profile + suffix`.
 */
module Credentials {
  import opened Ini
  import Prompts

  /** Default suffix of the derived MFA profile. */
  const MfaCredsSuffix: string := "-mfa"

  const AccessKeyIdKey: string := "aws_access_key_id"
  const SecretAccessKeyKey: string := "aws_secret_access_key"
  const SessionTokenKey: string := "aws_session_token"
  /** Legacy name of the session token, written for tools that still read it. */
  const SecurityTokenKey: string := "aws_security_token"

  /** The four options the update writes. */
  const CredentialKeys: set<string> := {AccessKeyIdKey, SecretAccessKeyKey, SessionTokenKey, SecurityTokenKey}

  /** What the token service returns, taken as an opaque record. */
  datatype StsCreds = StsCreds(accessKey: string, secretKey: string, sessionToken: string, expiration: string)

  /** The derived section after the update: the four credential options set, every other option kept. */
  function WithCreds(section: Section, creds: StsCreds): (r: Section)
    ensures r.Keys == section.Keys + CredentialKeys
  {
    section[AccessKeyIdKey := creds.accessKey]
           [SecretAccessKeyKey := creds.secretKey]
           [SessionTokenKey := creds.sessionToken]
           [SecurityTokenKey := creds.sessionToken]
  }

  /** The document `update_aws_creds` leaves behind. */
  function Merge(d: Doc, profile: string, suffix: string, creds: StsCreds): (r: Doc)
    // The derived section exists and holds the four credentials, the token under both names.
    ensures profile + suffix in r.sections && CredentialKeys <= r.sections[profile + suffix].Keys
    ensures r.sections[profile + suffix][AccessKeyIdKey] == creds.accessKey
    ensures r.sections[profile + suffix][SecretAccessKeyKey] == creds.secretKey
    ensures r.sections[profile + suffix][SessionTokenKey] == creds.sessionToken
    ensures r.sections[profile + suffix][SecurityTokenKey] == creds.sessionToken
    // Every other section is untouched; the only section that may appear is the derived one, appended last.
    ensures r.sections.Keys == d.sections.Keys + {profile + suffix}
    ensures forall n :: n in d.sections && n != profile + suffix ==> r.sections[n] == d.sections[n]
    ensures profile + suffix in d.sections ==> r.names == d.names
    ensures profile + suffix !in d.sections ==> r.names == d.names + [profile + suffix]
    // Within the derived section, options other than the four are kept.
    ensures profile + suffix in d.sections ==>
      && r.sections[profile + suffix].Keys == d.sections[profile + suffix].Keys + CredentialKeys
      && forall k :: k in d.sections[profile + suffix] && k !in CredentialKeys ==>
           r.sections[profile + suffix][k] == d.sections[profile + suffix][k]
    ensures profile + suffix !in d.sections ==> r.sections[profile + suffix].Keys == CredentialKeys
  {
    var target := profile + suffix;
    if target in d.sections then
      Doc(d.names, d.sections[target := WithCreds(d.sections[target], creds)])
    else
      Doc(d.names + [target], d.sections[target := WithCreds(map[], creds)])
  }

  /** The update keeps the document well formed. */
  lemma MergeWellFormed(d: Doc, profile: string, suffix: string, creds: StsCreds)
    requires WellFormed(d)
    ensures WellFormed(Merge(d, profile, suffix, creds))
  {
  }

  /** Applying the update twice with the same arguments gives the document applying it once gives. */
  lemma MergeIdempotent(d: Doc, profile: string, suffix: string, creds: StsCreds)
    ensures Merge(Merge(d, profile, suffix, creds), profile, suffix, creds) == Merge(d, profile, suffix, creds)
  {
    var target := profile + suffix;
    var once := Merge(d, profile, suffix, creds);
    assert WithCreds(once.sections[target], creds) == once.sections[target];
  }

  /** The derived section is never offered as a profile, so the update leaves the profile menu as it was. */
  lemma MergeKeepsChoices(d: Doc, profile: string, suffix: string, creds: StsCreds)
    ensures Prompts.Choices(Merge(d, profile, suffix, creds).names, suffix) == Prompts.Choices(d.names, suffix)
  {
  }

  /** `update_aws_creds`: upserts the derived section of `awsCreds` in place. */
  method UpdateAwsCreds(awsCreds: Document, profile: string, suffix: string, creds: StsCreds)
    requires awsCreds.Valid()
    modifies awsCreds
    ensures awsCreds.Valid()
    ensures awsCreds.Contents() == Merge(old(awsCreds.Contents()), profile, suffix, creds)
  {
    MergeWellFormed(awsCreds.Contents(), profile, suffix, creds);
    var stsProfile := profile + suffix;
    if stsProfile !in awsCreds.sections {
      awsCreds.names := awsCreds.names + [stsProfile];
      awsCreds.sections := awsCreds.sections[stsProfile := map[]];
    }
    // The section is a value here; the four writes are applied to it, then stored back.
    var section := awsCreds.sections[stsProfile];
    section := section[AccessKeyIdKey := creds.accessKey];
    section := section[SecretAccessKeyKey := creds.secretKey];
    section := section[SessionTokenKey := creds.sessionToken];
    section := section[SecurityTokenKey := creds.sessionToken];
    awsCreds.sections := awsCreds.sections[stsProfile := section];
  }
}
