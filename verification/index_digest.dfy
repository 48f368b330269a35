/** Digests in a `versions.json` and digests in a lockfile. */
module IndexDigest {
  import opened Common
  import opened Lockfile
  import SemVer
  import IndexVersions

  /** The index client takes a digest exactly if, without its prefix, it may stand in a lockfile. */
  lemma DigestTakenIff(raw: string, s: Source)
    requires HasDigest(s)
    ensures IndexVersions.TryDigest(raw) == Some(s.digest) <==> raw == "sha256:" + s.digest && DigestFits(s)
  {
    if "sha256:" <= raw {
      assert raw == raw[..7] + raw[7..];
    }
    if raw == "sha256:" + s.digest {
      assert raw[7..] == s.digest;
    }
  }

  /** What an accepted document advertises may be locked as it is. */
  lemma AdvertisedFits(lib: SemVer.Codec, entries: seq<IndexVersions.VersionEntry>, k: nat, url: string)
    requires IndexVersions.Validate(lib, entries).Ok? && k < |IndexVersions.Validate(lib, entries).value|
    ensures var a := IndexVersions.Validate(lib, entries).value[k];
            DigestFits(IndexKpar(url, a.kparSize, a.kparDigest))
  {
    IndexVersions.DocumentAcceptedIff(lib, entries);
    assert IndexVersions.WellFormed(lib, entries[k]);
  }
}
