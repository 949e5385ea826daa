/**
 Clock bring-up (`init_osc`): enable the high-frequency ring oscillator, put
 the PLL in bypass with the ring oscillator as its reference, select the PLL,
 and switch the ring oscillator back off. Every step is a read-modify-write of
 a PRCI register; the final HFROSCCFG word is computed from the local copy
 kept since the start, not read again.
 */
module Clock {
  import opened Mmio

  /**
   Six bus accesses: HFROSCCFG read and written, PLLCFG read and written
   twice, HFROSCCFG written once more. Only the two clock registers change.
   */
  function InitOsc(m: Machine): (r: Machine)
    requires HfroscCfg in m.regs && PllCfg in m.regs
    ensures r.status == m.status && r.stalled == m.stalled
    ensures HfroscCfg in r.regs && PllCfg in r.regs
    ensures r.regs == m.regs[HfroscCfg := r.regs[HfroscCfg]][PllCfg := r.regs[PllCfg]]
    ensures |r.trace| == |m.trace| + 6
    ensures r.trace[|m.trace| + 1].Write32? && r.trace[|m.trace| + 3].Write32?
    ensures var h0, p0 := m.regs[HfroscCfg], m.regs[PllCfg];
      var h1, p1 := r.trace[|m.trace| + 1].value, r.trace[|m.trace| + 3].value;
      && r.trace == m.trace + [
           Read(HfroscCfg, h0), Write32(HfroscCfg, h1),
           Read(PllCfg, p0), Write32(PllCfg, p1), Write32(PllCfg, r.regs[PllCfg]),
           Write32(HfroscCfg, r.regs[HfroscCfg])]
      // enable the ring oscillator
      && SetsBits(h0, h1, HfroscEn)
      // reference select and bypass together, then select in a second write
      && SetsBits(p0, p1, PllRefSel | PllBypass)
      && SetsBits(p1, r.regs[PllCfg], PllSel)
      && SetsBits(p0, r.regs[PllCfg], PllRefSel | PllBypass | PllSel)
      // ring oscillator off again, every other bit as first read
      && ClearsBits(h0, r.regs[HfroscCfg], HfroscEn)
  {
    var (hfrosccfg, m2) := SetBitsRmw(m, HfroscCfg, HfroscEn);

    var (pllcfg, m4) := SetBitsRmw(m2, PllCfg, PllRefSel | PllBypass);
    var pllcfg2 := pllcfg | PllSel;
    var m5 := Write32At(m4, PllCfg, pllcfg2);

    var hfrosccfg2 := hfrosccfg & !HfroscEn;
    SelectBits(m.regs[PllCfg], pllcfg);
    DisableBits(m.regs[HfroscCfg], hfrosccfg);
    var r := Write32At(m5, HfroscCfg, hfrosccfg2);
    assert r.trace == m.trace + [
      Read(HfroscCfg, m.regs[HfroscCfg]), Write32(HfroscCfg, hfrosccfg),
      Read(PllCfg, m.regs[PllCfg]), Write32(PllCfg, pllcfg), Write32(PllCfg, pllcfg2),
      Write32(HfroscCfg, hfrosccfg2)];
    r
  }

  /** Setting PLLSEL on top of the bypass write sets all three PLL bits of the word first read. */
  lemma SelectBits(p0: bv32, p1: bv32)
    requires SetsBits(p0, p1, PllRefSel | PllBypass)
    ensures SetsBits(p1, p1 | PllSel, PllSel)
    ensures SetsBits(p0, p1 | PllSel, PllRefSel | PllBypass | PllSel)
  {
    SetMask(p1, PllSel);
  }

  /** Clearing HFROSCEN in the cached copy gives the first-read word with that bit clear. */
  lemma DisableBits(h0: bv32, h1: bv32)
    requires SetsBits(h0, h1, HfroscEn)
    ensures ClearsBits(h0, h1 & !HfroscEn, HfroscEn)
  {
    ClearMask(h1, HfroscEn);
  }
}
