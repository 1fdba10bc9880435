/** The enumerations shared by the calendar, the code scheme and the record store. */
module LiturgicalTypes {

  datatype Season = Advent | Christmas | OrdinaryTime | Lent | HolyWeek | Easter

  datatype LiturgicalColor = Green | Purple | White | Red | Rose | Black | Gold

  datatype LiturgicalRank = Solemnity | Feast | Memorial | OptionalMemorial | Ferial

  /** Category of a stored celebration record. */
  datatype MassCategory =
    | Ordinary | Seasons | Saints | Commons | Votive
    | Funeral | Various | Readings | Prefaces | Eucharistic
}
