/**
 * The per-directory lock identity (index.js:28, 58-60): the lock directory
 * is `/run/compress_logs/<first 8 characters of the hex SHA-256 of dir>` and
 * the lock file is `process.lock` inside it.  The digest is a parameter:
 * SHA-256 and its hex encoding are not modelled.
 */
module LockPath {

  const LockDirBase: string := "/run"
  const LockDirRoot: string := LockDirBase + "/compress_logs/"
  const LockFileName: string := "/process.lock"

  /** `digest.substring(0, 8)`: at most the first eight characters. */
  function HashPrefix(digest: string): (p: string)
    ensures |p| == if |digest| < 8 then |digest| else 8
    ensures p <= digest
  {
    if |digest| < 8 then digest else digest[..8]
  }

  /** The lock directory: the digest prefix as the last component under `/run/compress_logs`. */
  function LockDir(dir: string, sha256Hex: string -> string): (d: string)
    ensures |d| == 19 + |HashPrefix(sha256Hex(dir))|
    ensures d[..19] == "/run/compress_logs/" && d[19..] == HashPrefix(sha256Hex(dir))
  {
    LockDirRoot + HashPrefix(sha256Hex(dir))
  }

  /** The lock file: `process.lock` directly inside the lock directory. */
  function LockFile(dir: string, sha256Hex: string -> string): (f: string)
    ensures |f| == |LockDir(dir, sha256Hex)| + 13
    ensures f[..|LockDir(dir, sha256Hex)|] == LockDir(dir, sha256Hex)
    ensures f[|LockDir(dir, sha256Hex)|..] == "/process.lock"
  {
    LockDir(dir, sha256Hex) + LockFileName
  }

  /**
   * For a digest of at least eight characters the lock file is a 40-character
   * path: `/run/compress_logs/`, the first eight digest characters (which
   * end the lock directory's path), then `/process.lock`.
   */
  lemma LockFileLayout(dir: string, sha256Hex: string -> string)
    requires |sha256Hex(dir)| >= 8
    ensures var f := LockFile(dir, sha256Hex);
      && |f| == 40
      && f[..19] == "/run/compress_logs/"
      && f[19..27] == sha256Hex(dir)[..8]
      && f[..27] == LockDir(dir, sha256Hex)
      && f[27..] == "/process.lock"
  {
  }

  /**
   * Two directories share a lock file exactly when their digests agree on
   * the prefix: the same directory always gets the same lock, and distinct
   * directories collide only through an 8-character digest collision.
   */
  lemma LockFilesCollideIffPrefixesMatch(dir1: string, dir2: string, sha256Hex: string -> string)
    ensures LockFile(dir1, sha256Hex) == LockFile(dir2, sha256Hex)
        <==> HashPrefix(sha256Hex(dir1)) == HashPrefix(sha256Hex(dir2))
  {
  }
}
