/**
  The (network function, command) classification each message class is
  tagged with. Only the names are modelled: the numeric codes of these
  enumerations are not part of this model.
 */
module Tags {

  datatype NetworkFunction = Dcgrp | OemGroup | Storage

  datatype Command = DcmiGetLimit | ReceiveSerialData | GetSelTime

  datatype Direction = Request | Response

  datatype MessageTag = MessageTag(netFn: NetworkFunction, command: Command, direction: Direction)
}
