/** The weather conditions of the road network. */
module Clima {

  /** The four conditions; in the Java engine each one owns a weight grid,
      in the Python script each edge records which one is in force. */
  datatype CondicionClimatica = Normal | Lluvia | Nieve | Tormenta
}
