/** The vocabulary of the Media Services SDK that the orchestrators depend on:
    the remote job states, the asset-creation (protection) options, and the
    status strings and descriptions derived from them. */
module Remote {
  import opened Wrappers

  /** `JobState` of a remote encoding job. */
  datatype JobState = Queued | Scheduled | Processing | Finished | Error | Canceled | Canceling

  /** `AssetCreationOptions`; `Unencrypted` stands for the SDK's `None`. */
  datatype Protection = Unencrypted | StorageEncrypted | CommonEncryptionProtected | EnvelopeEncryptionProtected

  /** `MediaProcessStatusArgs.JobStatus` (both copies): each state is reported
      under its own name. */
  function JobStatus(s: JobState): (r: string)
    ensures |r| > 0
  {
    match s
    case Queued => "Queued"
    case Scheduled => "Scheduled"
    case Processing => "Processing"
    case Finished => "Finished"
    case Error => "Error"
    case Canceled => "Canceled"
    case Canceling => "Canceling"
  }

  /** Reads a status string back; the reference for `JobStatus`. */
  function ParseJobStatus(name: string): Option<JobState> {
    if name == "Queued" then Some(Queued)
    else if name == "Scheduled" then Some(Scheduled)
    else if name == "Processing" then Some(Processing)
    else if name == "Finished" then Some(Finished)
    else if name == "Error" then Some(Error)
    else if name == "Canceled" then Some(Canceled)
    else if name == "Canceling" then Some(Canceling)
    else None
  }

  /** The status string names the state: it reads back to the same state, so
      distinct states are reported differently. */
  lemma JobStatusRoundTrip(s: JobState)
    ensures ParseJobStatus(JobStatus(s)) == Some(s)
  {
  }

  lemma JobStatusInjective(s: JobState, t: JobState)
    ensures JobStatus(s) == JobStatus(t) <==> s == t
  {
    JobStatusRoundTrip(s);
    JobStatusRoundTrip(t);
  }

  /** Only the `Finished` state is reported as "Finished", the value the
      in-progress queries filter out. */
  lemma FinishedStatusOnlyForFinished(s: JobState)
    ensures JobStatus(s) == "Finished" <==> s == Finished
  {
  }

  /** `MediaController.GetAssetCreationDescription`: the protection label stored
      in each record. */
  function AssetCreationDescription(p: Protection): string {
    match p
    case EnvelopeEncryptionProtected => "PlayReady DRM"
    case CommonEncryptionProtected => "Ultra-Violet DRM"
    case StorageEncrypted => "Storage Encrypted"
    case Unencrypted => "HTTPS & SAS"
  }

  /** `Media.GetAssetCreationDescription` of the older orchestrator. */
  function LegacyAssetCreationDescription(p: Protection): string {
    match p
    case EnvelopeEncryptionProtected => "PlayReady Encryption"
    case CommonEncryptionProtected => "Ultra-Violet Encryption"
    case StorageEncrypted => "Storage Encrypted"
    case Unencrypted => "No Encryption"
  }

  /** Both label tables are one-to-one, and they agree only on storage encryption. */
  lemma DescriptionsDistinguishProtection(p: Protection, q: Protection)
    ensures AssetCreationDescription(p) == AssetCreationDescription(q) <==> p == q
    ensures LegacyAssetCreationDescription(p) == LegacyAssetCreationDescription(q) <==> p == q
    ensures AssetCreationDescription(p) == LegacyAssetCreationDescription(p) <==> p == StorageEncrypted
  {
  }

  /** Media processor names looked up by the job composers. */
  const EncoderProcessor := "Windows Azure Media Encoder"
  const EncryptorProcessor := "Windows Azure Media Encryptor"
  const DecryptionProcessor := "Storage Decryption"
}
