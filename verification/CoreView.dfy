/** The manager's core as a view of the Xray configuration: its inbounds that are not excluded. */
module CoreViews {
  import opened Base
  import opened Common
  import opened XrayAccounts
  import opened XrayInbounds
  import opened SharedState
  import opened SharedOps
  import opened SharedLoops
  import XrayConfig

  /** One inbound of the configuration: its fixed part and its clients. */
  datatype Slot = Slot(config: InboundConfig, clients: Clients)

  function View(c: Codec, slots: seq<Slot>): Core {
    if slots == [] then []
    else
      var last, before := slots[|slots| - 1], View(c, slots[..|slots| - 1]);
      if last.config.exclude then before else before + [Inbound(XrayConfig.Serving(c, last.config), last.clients)]
  }

  /** The inbounds have the same fixed parts, and the clients of those not excluded changed by `f`. */
  ghost predicate Changed(c: Codec, f: (User -> Option<Account>, Clients) -> Clients, slots: seq<Slot>,
                          slots': seq<Slot>) {
    && |slots'| == |slots|
    && forall i :: 0 <= i < |slots| ==>
         slots'[i].config == slots[i].config &&
         slots'[i].clients == if slots[i].config.exclude then slots[i].clients
                              else f(XrayConfig.Serving(c, slots[i].config), slots[i].clients)
  }

  lemma {:induction false} ViewChanges(c: Codec, f: (User -> Option<Account>, Clients) -> Clients, slots: seq<Slot>,
                                       slots': seq<Slot>)
    requires Changed(c, f, slots, slots')
    ensures |View(c, slots')| == |View(c, slots)|
    ensures forall i :: 0 <= i < |View(c, slots)| ==>
              View(c, slots')[i] == View(c, slots)[i].(clients := f(View(c, slots)[i].serve, View(c, slots)[i].clients))
  {
    if slots != [] {
      ViewChanges(c, f, slots[..|slots| - 1], slots'[..|slots| - 1]);
    }
  }

  function SlotsOf(config: XrayConfig.Config): (slots: seq<Slot>)
    reads config.inbounds
    ensures |slots| == |config.inbounds|
    ensures forall i :: 0 <= i < |slots| ==> slots[i] == Slot(config.inbounds[i].config, config.inbounds[i].clients)
  {
    seq(|config.inbounds|, i requires 0 <= i < |config.inbounds| reads config.inbounds =>
      Slot(config.inbounds[i].config, config.inbounds[i].clients))
  }

  /** Xray.SyncUser on the configuration is the manager's sync on the view. */
  method SyncUser(config: XrayConfig.Config, u: User)
    requires config.Valid()
    modifies set i | 0 <= i < |config.inbounds| :: config.inbounds[i]
    ensures View(config.codec, SlotsOf(config)) == SyncCore(old(View(config.codec, SlotsOf(config))), u)
  {
    ghost var before := SlotsOf(config);
    config.SyncUser(u);
    ViewChanges(config.codec,
                (serve: User -> Option<Account>, clients: Clients) => Synced(serve, clients, u),
                before, SlotsOf(config));
  }

  /** Xray.UpdateUsers with a user assigned to no inbound is the manager's removal on the view. */
  method RemoveUser(config: XrayConfig.Config, u: User)
    requires config.Valid()
    modifies set i | 0 <= i < |config.inbounds| :: config.inbounds[i]
    ensures View(config.codec, SlotsOf(config)) == EvictCore(old(View(config.codec, SlotsOf(config))), u)
  {
    ghost var before := SlotsOf(config);
    config.UpdateUsers([Unassigned(u)]);
    ViewChanges(config.codec,
                (serve: User -> Option<Account>, clients: Clients) => Updated(serve, clients, [Unassigned(u)]),
                before, SlotsOf(config));
  }

  /** The view is sound: every inbound serves only users assigned to it. */
  lemma {:induction false} ViewIsSound(c: Codec, slots: seq<Slot>)
    ensures SoundCore(Some(View(c, slots)))
  {
    if slots != [] {
      ViewIsSound(c, slots[..|slots| - 1]);
      ConfiguredInboundsAreSound(c, slots[|slots| - 1].config, slots[|slots| - 1].clients);
    }
  }
}
