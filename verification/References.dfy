/** Install references and the records a runnable product state is composed of. */
module References {
  import opened Bytes

  datatype Ownership = Managed | Imported | ForeignOwned | BadOwnership

  datatype Lifecycle = Active | VerificationFailed | NeedsRecovery | Retired | Uninstalled | BadLifecycle

  /** Enumerators outside their range are the Bad ones. */
  datatype InstallReference = InstallReference(
    installId: Text, productId: Text, ownership: Ownership, setupStateRef: Text, exactVersion: Text, entrypoint: Text,
    capabilities: Text, lifecycle: Lifecycle, verification: Text, stateRevision: Text)

  datatype PlanStatus = Fresh | Stale
}
