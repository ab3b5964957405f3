// What the TOML and the JSON half of the agent-config editor share.

module AgentConfig {
  datatype Action = Install | Uninstall

  datatype Error = MalformedConfig | OwnershipConflict | NativeTransportMutation
}
