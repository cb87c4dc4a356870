/** The signal icon of an OTA device on the test page, chosen from its Wi-Fi RSSI in dBm. */
module WifiSignal {
  import opened JsNumbers

  const Strong: string := "wifi"
  const Medium: string := "wifi_2_bar"
  const Weak: string := "wifi_1_bar"

  /** `getWifiSignalStrength`: at least -60 is strong, at least -80 medium, anything else (NaN too) weak. */
  function WifiSignalStrength(rssi: Num): (icon: string)
    ensures icon == Strong <==> AtLeast(rssi, -60.0)
    ensures icon == Medium <==> !AtLeast(rssi, -60.0) && AtLeast(rssi, -80.0)
    ensures icon == Weak <==> !AtLeast(rssi, -80.0)
  {
    if AtLeast(rssi, -60.0) then Strong
    else if AtLeast(rssi, -80.0) then Medium
    else Weak
  }

  /** The number of bars an icon shows. */
  function Bars(icon: string): nat {
    if icon == Strong then 3 else if icon == Medium then 2 else 1
  }

  /** A stronger signal never shows fewer bars. */
  lemma {:induction false} StrongerSignalNeverFewerBars(a: Num, b: Num)
    requires !a.NaN? && !b.NaN? && NumLe(a, b)
    ensures Bars(WifiSignalStrength(a)) <= Bars(WifiSignalStrength(b))
  {
    if AtLeast(a, -60.0) {
      AtLeastIsMonotone(a, b, -60.0);
    } else if AtLeast(a, -80.0) {
      AtLeastIsMonotone(a, b, -80.0);
    }
  }

  /** An RSSI that is not a number, such as `Number("Unknown")`, shows one bar. */
  lemma {:induction false} UnknownRssiIsWeak(text: string, parse: string -> Num)
    requires parse(text) == NaN
    ensures WifiSignalStrength(ToNumber(Text(text), parse)) == Weak
  {
  }

  /** The boundaries belong to the stronger class. */
  lemma BoundariesBelongToStrongerClass()
    ensures WifiSignalStrength(Finite(-60.0)) == Strong
    ensures WifiSignalStrength(Finite(-80.0)) == Medium
    ensures WifiSignalStrength(Finite(-80.5)) == Weak
  {
  }
}
