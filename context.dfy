/**
 * resetter_context_t (context.h): the state a capture thread shares with
 * its packet handlers.  Only the fields the modelled code reads or writes
 * are kept.  The pcap and libnet handles are opaque: the model records
 * only whether each is open (non-NULL).
 */
module Context {
  import opened Common

  /**
   * The 1000-byte `filter_string` buffer.  `None` stands for a buffer
   * with no terminating NUL in it.
   */
  type FilterBuffer = Option<string>

  /** Capacity of `filter_string`, terminator included. */
  const FilterCapacity: nat := 1000

  class ResetterContext
  {
    /** `target_port`, a `uint16_t`; 0 means no port was given. */
    var targetPort: nat
    var filterString: FilterBuffer
    /** `arp_poisoning`: non-zero while ARP poisoning is on. */
    var arpPoisoning: int
    /**
     * The ARP table: sender IP, as the `uint32_t` key the handler loads,
     * to sender MAC.
     */
    var arpTable: map<nat, seq<Byte>>
    /** `pcap != NULL`, the condition is_listener_started tests. */
    var pcapOpen: bool
    /** `libnet != NULL`. */
    var libnetOpen: bool
    /** `libnet_last_stats_at`, a `u_long`; 0 until the first report check. */
    var libnetLastStatsAt: nat

    /** The context right after `memset(ctx, 0, sizeof(resetter_context_t))`. */
    constructor ()
      ensures targetPort == 0 && filterString == Some("") && arpPoisoning == 0
      ensures arpTable == map[] && !pcapOpen && !libnetOpen && libnetLastStatsAt == 0
    {
      targetPort := 0;
      filterString := Some("");
      arpPoisoning := 0;
      arpTable := map[];
      pcapOpen := false;
      libnetOpen := false;
      libnetLastStatsAt := 0;
    }
  }
}
