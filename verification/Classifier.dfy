/** `is_small_file` of src/util.rs:119-142, by which both ends tell small files from large ones. */
module Classifier {
  import opened Reassembly

  predicate Contains(s: string, t: string) {
    exists i | 0 <= i <= |s| :: t <= s[i..]
  }

  /** The prefix, some digits, and `.img`. */
  predicate Numbered(s: string, prefix: string) {
    && |prefix| + 1 + |".img"| <= |s| && prefix <= s && s[|s| - 4..] == ".img"
    && forall i | |prefix| <= i < |s| - 4 :: '0' <= s[i] <= '9'
  }

  predicate IsSmallFile(s: string) {
    if s == "process_state.json" || s == "rw-layer.manifest" || s == "runc.netns_eth0_ipv4addr" then true
    else if Contains(s, "gpu") && Contains(s, "size") then true
    else if "gpu-noctx-calls-" <= s then true
    else if Numbered(s, "rw-layer-") || Numbered(s, "pages-") || Numbered(s, "ghost-file-") then false
    else if |"tcp-stream-.img"| <= |s| && "tcp-stream-" <= s && s[|s| - 4..] == ".img" && '\n' !in s[11..|s| - 4] then false
    else if "gpu-calls-" <= s || "gpu-mem-" <= s || "gpu-ctx-" <= s || "gpu-hostmem-" <= s then false
    else if "gpu-ctxshm-" <= s || "gpu-virtmem-" <= s || "gpu-envvars-" <= s then false
    else true
  }

  /** What the deserializer relies on: the metadata travels with the small files. */
  lemma MetadataIsSmall()
    ensures IsSmallFile(METADATA_FILE)
  {
    var s := METADATA_FILE;
    assert s[0] == 'm';
  }

  lemma NoLetter(s: string, t: string, c: char)
    requires c in t && c !in s
    ensures !Contains(s, t)
  {
    forall i | 0 <= i <= |s| ensures t <= s[i..] ==> c in s {
      if t <= s[i..] {
        LettersOf(s, t, i, c);
      }
    }
  }

  lemma LettersOf(s: string, t: string, i: nat, c: char)
    requires i <= |s| && t <= s[i..] && c in t
    ensures c in s
  {
    var k :| 0 <= k < |t| && t[k] == c;
    assert s[i..][k] == c;
    assert s[i + k] == c;
  }

  /** The memory pages of a process are always large files, whatever their number. */
  lemma PagesAreLarge(digits: string)
    requires digits != "" && forall c <- digits :: '0' <= c <= '9'
    ensures !IsSmallFile("pages-" + digits + ".img")
  {
    var s := "pages-" + digits + ".img";
    assert 'u' !in s && 'z' !in s;
    assert "gpu"[2] == 'u';
    NoLetter(s, "gpu", 'u');
    assert s[0] == 'p' && s[|s| - 4..] == ".img" && "pages-" <= s;
    assert forall i | 6 <= i < |s| - 4 :: s[i] == digits[i - 6] && s[i] in digits;
    assert Numbered(s, "pages-");
    assert s[1] == 'a';
  }

  lemma NotNamed(s: string)
    requires s != "" && s[|s| - 1] == 'g'
    ensures s != "process_state.json" && s != "rw-layer.manifest" && s != "runc.netns_eth0_ipv4addr"
  {
    assert "process_state.json"[|"process_state.json"| - 1] == 'n';
    assert "rw-layer.manifest"[|"rw-layer.manifest"| - 1] == 't';
    assert "runc.netns_eth0_ipv4addr"[|"runc.netns_eth0_ipv4addr"| - 1] == 'r';
  }

  lemma NotGpu(s: string)
    requires |s| > 2 && 'u' !in s
    ensures !Contains(s, "gpu") && !("gpu-noctx-calls-" <= s)
  {
    assert "gpu"[2] == 'u' && "gpu-noctx-calls-"[2] == 'u' && s[2] in s;
    NoLetter(s, "gpu", 'u');
  }

  lemma PrefixIsNumbered(prefix: string, digits: string)
    requires digits != "" && forall c <- digits :: '0' <= c <= '9'
    ensures Numbered(prefix + digits + ".img", prefix)
  {
    var s := prefix + digits + ".img";
    assert s[|s| - 4..] == ".img" && s[..|prefix|] == prefix;
    assert forall i | |prefix| <= i < |s| - 4 :: s[i] == digits[i - |prefix|] && s[i] in digits;
  }

  /** Large numbered files of every kind. */
  lemma NumberedAreLarge(prefix: string, digits: string)
    requires prefix == "rw-layer-" || prefix == "pages-" || prefix == "ghost-file-"
    requires digits != "" && forall c <- digits :: '0' <= c <= '9'
    ensures !IsSmallFile(prefix + digits + ".img")
  {
    var s := prefix + digits + ".img";
    assert 'u' !in prefix && 'u' !in ".img" && 'u' !in s;
    NotNamed(s);
    NotGpu(s);
    PrefixIsNumbered(prefix, digits);
  }

  /** GPU state, whatever follows, unless the name speaks of a size. */
  lemma GpuStateIsLarge(prefix: string, rest: string)
    requires prefix in ["gpu-calls-", "gpu-mem-", "gpu-ctx-", "gpu-hostmem-", "gpu-ctxshm-", "gpu-virtmem-", "gpu-envvars-"]
    ensures IsSmallFile(prefix + rest) <==> Contains(prefix + rest, "size")
  {
    var s := prefix + rest;
    assert s[..|prefix|] == prefix && prefix <= s;
    assert s[0] == 'g' && s[1] == 'p' && s[2] == 'u' && s[3] == '-';
    assert "gpu" <= s[0..];
    assert s[4] != 'n';
    assert "gpu-noctx-calls-"[4] == 'n';
    assert "rw-layer-"[0] == 'r' && "pages-"[0] == 'p' && "ghost-file-"[1] == 'h' && "tcp-stream-"[0] == 't';
    assert "process_state.json"[0] == 'p' && "runc.netns_eth0_ipv4addr"[0] == 'r';
  }

  lemma SizesAreSmall(s: string)
    requires Contains(s, "gpu") && Contains(s, "size")
    ensures IsSmallFile(s)
  {
  }

  lemma NoctxCallsAreSmall(rest: string)
    ensures IsSmallFile("gpu-noctx-calls-" + rest)
  {
    assert "gpu-noctx-calls-" <= "gpu-noctx-calls-" + rest;
  }

  /** Streams of TCP connections; a line feed inside the name keeps the pattern from matching. */
  lemma TcpStreams(rest: string)
    requires 'z' !in rest
    ensures IsSmallFile("tcp-stream-" + rest + ".img") <==> '\n' in rest
  {
    var s := "tcp-stream-" + rest + ".img";
    assert 'z' !in s;
    assert "size"[2] == 'z';
    NoLetter(s, "size", 'z');
    assert s[|s| - 4..] == ".img" && s[..11] == "tcp-stream-" && s[11..|s| - 4] == rest;
    assert s[0] == 't';
    assert "gpu-noctx-calls-"[0] == 'g' && "rw-layer-"[0] == 'r' && "pages-"[0] == 'p' && "ghost-file-"[0] == 'g';
    assert "gpu-calls-"[0] == 'g' && "gpu-mem-"[0] == 'g' && "gpu-ctx-"[0] == 'g' && "gpu-hostmem-"[0] == 'g';
    assert "gpu-ctxshm-"[0] == 'g' && "gpu-virtmem-"[0] == 'g' && "gpu-envvars-"[0] == 'g';
  }

  /** The files named one by one, and what CRIU itself reads first. */
  lemma NamedFilesAreSmall()
    ensures IsSmallFile("process_state.json") && IsSmallFile("rw-layer.manifest") && IsSmallFile("runc.netns_eth0_ipv4addr")
    ensures IsSmallFile("files.img") && IsSmallFile("inventory.img")
  {
    assert "files.img"[0] == 'f' && "inventory.img"[0] == 'i';
  }
}
