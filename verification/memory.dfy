/** The memory-tier decisions of `memory_monitor.py`: encoder settings chosen
    from the available memory, the fixed low-memory profile, and the two
    threshold checks. Memory readings (in MB) are parameters. */
module Memory {
  import opened Chars

  /** Encoder settings; bitrates are in kbit/s and rendered as `"<n>k"`. */
  datatype EncoderSettings = EncoderSettings(
    width: nat,
    height: nat,
    fps: nat,
    videoKbps: nat,
    audioKbps: nat,
    threads: nat,
    preset: string)
  {
    function VideoBitrate(): string {
      NatToString(videoKbps) + "k"
    }

    function AudioBitrate(): string {
      NatToString(audioKbps) + "k"
    }
  }

  const Tier480 := EncoderSettings(854, 480, 20, 300, 48, 1, "ultrafast")
  const Tier720 := EncoderSettings(1280, 720, 24, 500, 64, 2, "fast")
  const Tier1080 := EncoderSettings(1920, 1080, 24, 800, 128, 2, "medium")

  /** `get_memory_safe_settings(available_memory_mb)`. */
  function GetMemorySafeSettings(availableMb: real): (s: EncoderSettings)
    ensures s in {Tier480, Tier720, Tier1080}
    ensures s.threads in {1, 2}
  {
    if availableMb < 512.0 then Tier480
    else if availableMb < 1024.0 then Tier720
    else Tier1080
  }

  /** The tier boundaries: below 512 MB the 480p tier, from 512 MB (included)
      below 1024 MB the 720p tier, from 1024 MB the 1080p tier. */
  lemma MemorySafeSettingsTiers(availableMb: real)
    ensures GetMemorySafeSettings(availableMb) == Tier480 <==> availableMb < 512.0
    ensures GetMemorySafeSettings(availableMb) == Tier720 <==> 512.0 <= availableMb < 1024.0
    ensures GetMemorySafeSettings(availableMb) == Tier1080 <==> 1024.0 <= availableMb
  {
  }

  /** More available memory never gives a smaller picture, a lower frame
      rate or lower bitrates. */
  lemma MemorySafeSettingsMonotone(a: real, b: real)
    requires a <= b
    ensures var s := GetMemorySafeSettings(a);
      var t := GetMemorySafeSettings(b);
      && s.height <= t.height && s.width <= t.width && s.fps <= t.fps
      && s.videoKbps <= t.videoKbps && s.audioKbps <= t.audioKbps
  {
  }

  /** The low-memory profile of `optimize_for_low_memory`. */
  datatype LowMemoryProfile = LowMemoryProfile(settings: EncoderSettings, tempCleanup: bool)

  function OptimizeForLowMemory(): (p: LowMemoryProfile)
    ensures p.settings.height == Tier720.height && p.settings.width == Tier720.width
    ensures p.settings.threads == 1 && p.tempCleanup
  {
    LowMemoryProfile(EncoderSettings(1280, 720, 24, 400, 64, 1, "ultrafast"), true)
  }

  /** The low-memory profile keeps the 720p picture and frame rate, but asks
      less than the 720p tier: a lower video bitrate, no higher audio
      bitrate, a single thread and the fastest preset of the 480p tier. */
  lemma LowMemoryProfileIsLighter()
    ensures var p := OptimizeForLowMemory().settings;
      && p.videoKbps < Tier720.videoKbps && p.audioKbps <= Tier720.audioKbps
      && p.threads < Tier720.threads && p.fps == Tier720.fps
      && p.preset == Tier480.preset
  {
  }

  const DefaultMaxMemoryMb := 1024
  const DefaultMinRequiredMb := 500

  /** `check_memory_limit` with the resident set size passed in: within the
      limit only when strictly below it. */
  predicate CheckMemoryLimit(rssMb: real, maxMemoryMb: int) {
    rssMb < maxMemoryMb as real
  }

  /** `check_available_memory` with the available memory passed in: enough
      unless strictly below the requirement. */
  predicate CheckAvailableMemory(availableMb: real, minRequiredMb: int) {
    !(availableMb < minRequiredMb as real)
  }

  /** Less resident memory never breaks the limit, and a reading equal to
      the limit already breaks it: at the default limit, 1024 MB is over. */
  lemma MemoryLimitMonotone(r1: real, r2: real, maxMb: int)
    requires r1 <= r2
    ensures CheckMemoryLimit(r2, maxMb) ==> CheckMemoryLimit(r1, maxMb)
    ensures !CheckMemoryLimit(maxMb as real, maxMb)
    ensures !CheckMemoryLimit(1024.0, DefaultMaxMemoryMb)
  {
  }

  /** More available memory never fails the requirement, and exactly the
      required amount passes; whenever the default check fails, the tier
      chosen for that reading is the 480p one. */
  lemma AvailableMemoryMonotone(a1: real, a2: real, minMb: int)
    requires a1 <= a2
    ensures CheckAvailableMemory(a1, minMb) ==> CheckAvailableMemory(a2, minMb)
    ensures CheckAvailableMemory(minMb as real, minMb)
    ensures !CheckAvailableMemory(a1, DefaultMinRequiredMb) ==> GetMemorySafeSettings(a1) == Tier480
  {
  }

  /** The rendered bitrates of the three tiers. */
  lemma TierBitrateStrings()
    ensures Tier480.VideoBitrate() == "300k" && Tier480.AudioBitrate() == "48k"
    ensures Tier720.VideoBitrate() == "500k" && Tier720.AudioBitrate() == "64k"
    ensures Tier1080.VideoBitrate() == "800k" && Tier1080.AudioBitrate() == "128k"
  {
    assert NatToString(30) == "30" && NatToString(300) == "300";
    assert NatToString(50) == "50" && NatToString(500) == "500";
    assert NatToString(80) == "80" && NatToString(800) == "800";
    assert NatToString(4) == "4" && NatToString(48) == "48";
    assert NatToString(6) == "6" && NatToString(64) == "64";
    assert NatToString(12) == "12" && NatToString(128) == "128";
  }
}
