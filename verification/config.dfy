/**
  The process-wide constants of the three animation scripts, gathered into one
  immutable record that every operation receives explicitly.
 */
module Configuration {
  import opened Maths

  datatype Config = Config(
    wavelength: real,   // _Wellenlaenge
    c: real,            // _c, speed of light
    c2: real,           // _c2, an independent literal for c squared
    z0: real,           // _Z0, wave impedance
    p0: real,           // _p0, dipole amplitude
    sizeFactor: real,   // _Groessenfaktor
    lineSpacing: real,  // _Linienabst
    stepFactor: real,   // _Grobfaktor2
    pointMax: real)     // _Punktzahl_max
  {
    ghost predicate Valid()
    {
      && wavelength > 0.0 && c > 0.0 && c2 > 0.0 && z0 > 0.0
      && sizeFactor > 0.0 && lineSpacing > 0.0 && stepFactor > 0.0 && pointMax >= 0.0
    }

    /** _Lamda_viertel */
    function QuarterWave(): real
    {
      wavelength / 4.0
    }

    /** _T, the oscillation period */
    function Period(): real
      requires c > 0.0
    {
      wavelength / c
    }

    /** _ZahlDerRechenschritte = int(_Punktzahl_max / _Grobfaktor2 + 100);
        int() truncates, which is the floor for this non-negative value. */
    function MaxSteps(): nat
      requires Valid()
    {
      (pointMax / stepFactor + 100.0).Floor
    }

    /** _Linien_pro_Welle, a real compared against an integer counter. */
    function LinesPerLobe(): real
      requires Valid()
    {
      wavelength / 4.0 / lineSpacing
    }
  }

  /** _w, the angular frequency 2*pi*c/lambda. */
  function Omega(lib: Library, cfg: Config): (w: real)
    requires Valid(lib) && cfg.Valid()
    ensures w > 0.0
  {
    var twoPiC := 2.0 * lib.pi * cfg.c;
    assert twoPiC > 0.0;
    twoPiC / cfg.wavelength
  }

  /** The configuration of DIPOLANIMATION_E_ARROWS.py. */
  const EArrowsConfig := Config(256.0, 299792458.0, 89876000000000000.0, 376.7303134, 100.0, 2.0, 8.0, 0.25, 3500.0)
  /** The configuration of DIPOLANIMATION_EH_3D.py. */
  const Eh3dConfig := EArrowsConfig.(sizeFactor := 3.0)
  /** The configuration of DIPOLANIMATION_H_ARROWS.py. */
  const HArrowsConfig := EArrowsConfig.(sizeFactor := 1.5)

  lemma DefaultsDerived()
    ensures EArrowsConfig.Valid() && Eh3dConfig.Valid() && HArrowsConfig.Valid()
    ensures EArrowsConfig.MaxSteps() == 14100
    ensures EArrowsConfig.LinesPerLobe() == 8.0
    ensures EArrowsConfig.QuarterWave() == 64.0
  {
  }
}
