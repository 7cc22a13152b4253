/** `get_mfa_device`: the MFA device serial configured for a profile. */
module Device {
  import opened Wrappers
  import opened Ini

  /** Option of a config section that holds the MFA device's serial (ARN). */
  const MfaSerialConfigKey: string := "helper_mfa_serial"

  /** Config sections are named `profile <name>`, unlike the bare names of the credentials file. */
  function ConfigSection(profile: string): string {
    "profile " + profile
  }

  /** The fatal configuration error: the profile's config section lacks the serial. */
  datatype ConfigError = MissingMfaSerial(profile: string)

  function MfaDevice(config: Doc, profile: string): (r: Result<string, ConfigError>)
    ensures r.Success? <==>
      ConfigSection(profile) in config.sections && MfaSerialConfigKey in config.sections[ConfigSection(profile)]
    ensures r.Success? ==> r.value == config.sections[ConfigSection(profile)][MfaSerialConfigKey]
    ensures r.Failure? ==> r.error == MissingMfaSerial(profile)
  {
    var fullProfile := ConfigSection(profile);
    if fullProfile in config.sections && MfaSerialConfigKey in config.sections[fullProfile] then
      Success(config.sections[fullProfile][MfaSerialConfigKey])
    else
      Failure(MissingMfaSerial(profile))
  }

  /** A serial under the bare profile name is not found: only the `profile <name>` section is read. */
  lemma MfaDeviceIgnoresBareSection(profile: string, serial: string)
    ensures MfaDevice(Doc([profile], map[profile := map[MfaSerialConfigKey := serial]]), profile).Failure?
    ensures MfaDevice(Doc([ConfigSection(profile)], map[ConfigSection(profile) := map[MfaSerialConfigKey := serial]]), profile)
      == Success(serial)
  {
  }
}
